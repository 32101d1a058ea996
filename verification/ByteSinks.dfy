/** Writing UTF-16 text as UTF-8 into a byte sink, chunk by chunk. */
module ByteSinks {
  import opened Utf
  import opened EditSpans
  import opened EditLog
  import Units = EditUnits

  const U8_MAX_LENGTH := 4
  const SCRATCH_CAPACITY := 200

  function Min(a: int, b: int): int {
    if a <= b then a else b
  }

  /** Keeps the first `capacity` bytes and counts the rest. */
  class CheckedArrayByteSink {
    const outbuf: array<Byte>
    const capacity: nat
    var size: nat
    var appended: nat
    var overflowed: bool
    ghost var received: seq<Byte>  // everything that was appended

    ghost predicate Valid()
      reads this, outbuf
    {
      && capacity <= outbuf.Length && capacity <= Units.INT32_MAX && size <= capacity && size <= |received|
      && outbuf[..size] == received[..size] && appended == Min(|received|, Units.INT32_MAX)
      && (if |received| <= Units.INT32_MAX then
            size == Min(|received|, capacity) && (overflowed <==> |received| > capacity)
          else overflowed)
    }

    constructor (outbuf: array<Byte>, capacity: int)
      requires capacity <= outbuf.Length && capacity <= Units.INT32_MAX
      ensures Valid() && this.outbuf == outbuf && this.capacity == (if capacity < 0 then 0 else capacity)
      ensures received == []
    {
      this.outbuf, this.capacity := outbuf, if capacity < 0 then 0 else capacity;
      size, appended, overflowed, received := 0, 0, false, [];
    }

    method Reset()
      requires Valid()
      modifies this
      ensures Valid() && received == []
    {
      size, appended, overflowed, received := 0, 0, false, [];
    }

    /** Appends `n` bytes of a buffer, which may be the free part of the sink's own array. */
    method Append(bytes: array<Byte>, from: nat, n: int)
      requires Valid() && from + n <= bytes.Length && (bytes == outbuf ==> from == size)
      modifies this, outbuf
      ensures Valid() && received == old(received) + (if n <= 0 then [] else old(bytes[from..from + n]))
    {
      if n <= 0 {
        return;
      }
      if n > Units.INT32_MAX - appended {
        appended := Units.INT32_MAX;
        overflowed := true;
        ghost var all := received + bytes[from..from + n];
        assert all[..size] == received[..size];
        received := all;
        return;
      }
      Keep(bytes, from, n);
    }

    /** Counts the bytes and keeps those that fit. */
    method Keep(bytes: array<Byte>, from: nat, n: nat)
      requires Valid() && from + n <= bytes.Length && (bytes == outbuf ==> from == size)
      requires |received| + n <= Units.INT32_MAX
      modifies this, outbuf
      ensures Valid() && received == old(received) + old(bytes[from..from + n])
    {
      ghost var chunk := bytes[from..from + n];
      appended := appended + n;
      var available := capacity - size;
      var m := n;
      if m > available {
        m := available;
        overflowed := true;
      }
      Store(bytes, from, m, n);
      TakeConcat(received, chunk, size, m);
      size := size + m;
      received := received + chunk;
    }

    /** Copies bytes behind those that are kept, unless they are there already. */
    method Store(bytes: array<Byte>, from: nat, m: nat, ghost n: nat)
      requires size + m <= outbuf.Length && m <= n && from + n <= bytes.Length && (bytes == outbuf ==> from == size)
      modifies outbuf
      ensures outbuf[..size + m] == old(outbuf[..size]) + old(bytes[from..from + n])[..m]
    {
      if bytes != outbuf {
        forall k | 0 <= k < m {
          outbuf[size + k] := bytes[from + k];
        }
      }
      ghost var kept := old(outbuf[..size]) + old(bytes[from..from + n])[..m];
      assert |kept| == size + m;
      assert forall k :: 0 <= k < size + m ==> outbuf[k] == kept[k];
    }

    lemma TakeConcat(a: seq<Byte>, b: seq<Byte>, i: nat, m: nat)
      requires i <= |a| && m <= |b| && (m > 0 ==> i == |a|)
      ensures a[..i] + b[..m] == (a + b)[..i + m]
    {
    }

    /** The free part of the array if it has the room asked for, else the caller's scratch buffer. */
    method GetAppendBuffer(minCapacity: int, scratch: array<Byte>)
      returns (buffer: array?<Byte>, offset: nat, bufferCapacity: nat)
      requires Valid() && scratch != outbuf
      ensures buffer == null <==> minCapacity < 1 || scratch.Length < minCapacity
      ensures if buffer == null then bufferCapacity == 0
              else minCapacity <= bufferCapacity && offset + bufferCapacity <= buffer.Length
      ensures buffer == null || (buffer == outbuf && offset == size) || (buffer == scratch && offset == 0)
      ensures buffer == outbuf ==> size + bufferCapacity == capacity
    {
      if minCapacity < 1 || scratch.Length < minCapacity {
        return null, 0, 0;
      }
      var available := capacity - size;
      if available >= minCapacity {
        return outbuf, size, available;
      } else {
        return scratch, 0, scratch.Length;
      }
    }
  }

  /** What a sink without buffers of its own offers: the caller's scratch buffer. */
  method ScratchBuffer(minCapacity: int, scratch: array<Byte>) returns (buffer: array?<Byte>, capacity: nat)
    ensures if minCapacity < 1 || scratch.Length < minCapacity then buffer == null && capacity == 0
            else buffer == scratch && minCapacity <= capacity == scratch.Length
  {
    if minCapacity < 1 || scratch.Length < minCapacity {
      return null, 0;
    }
    return scratch, scratch.Length;
  }

  /** Any sink: the checked array, or another one, which at each request offers a buffer of its own with any capacity
      for at least a character, or none. */
  class ByteSink {
    const checked: CheckedArrayByteSink?
    const offered: nat -> nat  // the capacity another sink offers at each request; 0 if none
    var requests: nat
    ghost var received: seq<Byte>

    ghost predicate Valid()
      reads this, checked, if checked == null then {} else {checked.outbuf}
    {
      && (forall k: nat :: offered(k) == 0 || offered(k) >= U8_MAX_LENGTH)
      && (checked != null ==> checked.Valid() && checked.received == received)
    }

    constructor (checked: CheckedArrayByteSink?, offered: nat -> nat)
      requires (forall k: nat :: offered(k) == 0 || offered(k) >= U8_MAX_LENGTH)
      requires (checked != null ==> checked.Valid())
      ensures Valid() && this.checked == checked && received == (if checked == null then [] else checked.received)
    {
      this.checked, this.offered := checked, offered;
      requests, received := 0, if checked == null then [] else checked.received;
    }

    /** A buffer with room for a character. */
    method GetAppendBuffer(scratch: array<Byte>) returns (buffer: array<Byte>, offset: nat, capacity: nat)
      requires Valid() && scratch.Length >= U8_MAX_LENGTH && (checked != null ==> scratch != checked.outbuf)
      modifies this`requests
      ensures Valid() && U8_MAX_LENGTH <= capacity && offset + capacity <= buffer.Length
      ensures buffer == scratch || fresh(buffer) || (checked != null && buffer == checked.outbuf)
      ensures checked != null && buffer == checked.outbuf ==> offset == checked.size
    {
      if checked != null {
        var b;
        b, offset, capacity := checked.GetAppendBuffer(U8_MAX_LENGTH, scratch);
        return b, offset, capacity;
      }
      requests := requests + 1;
      capacity := offered(requests - 1);
      if capacity == 0 {
        var b;
        b, capacity := ScratchBuffer(U8_MAX_LENGTH, scratch);
        return b, 0, capacity;
      }
      buffer, offset := new Byte[capacity](_ => 0), 0;
    }

    method Append(bytes: array<Byte>, from: nat, n: nat)
      requires Valid() && from + n <= bytes.Length
      requires checked != null && bytes == checked.outbuf ==> from == checked.size
      modifies this, checked, if checked == null then {} else {checked.outbuf}
      ensures Valid() && received == old(received) + old(bytes[from..from + n])
    {
      ghost var chunk := bytes[from..from + n];
      if checked != null {
        checked.Append(bytes, from, n);
        assert n == 0 ==> chunk == [];
      }
      received := received + chunk;
    }
  }

  /** Writes the bytes of one code point. */
  method WriteUtf8(buffer: array<Byte>, at: nat, c: int) returns (n: nat)
    requires IsScalar(c) && at + U8_MAX_LENGTH <= buffer.Length
    modifies buffer
    ensures n == |Encode(c)| && buffer[at..at + n] == Encode(c)
    ensures buffer[..at] == old(buffer[..at])
  {
    if c < 0x80 {
      buffer[at] := c;
      n := 1;
    } else if c < 0x800 {
      buffer[at] := 0xc0 + c / 0x40;
      buffer[at + 1] := 0x80 + c % 0x40;
      n := 2;
    } else if c < 0x1_0000 {
      buffer[at] := 0xe0 + c / 0x1000;
      buffer[at + 1] := 0x80 + c / 0x40 % 0x40;
      buffer[at + 2] := 0x80 + c % 0x40;
      n := 3;
    } else {
      buffer[at] := 0xf0 + c / 0x4_0000;
      buffer[at + 1] := 0x80 + c / 0x1000 % 0x40;
      buffer[at + 2] := 0x80 + c / 0x40 % 0x40;
      buffer[at + 3] := 0x80 + c % 0x40;
      n := 4;
    }
  }

  /** Fills a buffer with whole characters while there is room for the longest; `head` are the code points written. */
  method FillBuffer(s16: seq<Unit16>, start: nat, buffer: array<Byte>, offset: nat, capacity: nat, ghost cps: seq<int>)
    returns (i: nat, j: nat, ghost head: seq<int>, ghost rest: seq<int>)
    requires start < |s16| && Scalars(cps) && s16[start..] == EncodeAll16(cps)
    requires U8_MAX_LENGTH <= capacity && offset + capacity <= buffer.Length
    modifies buffer
    ensures start < i <= |s16| && j <= capacity && buffer[..offset] == old(buffer[..offset])
    ensures cps == head + rest && Scalars(head) && Scalars(rest) && s16[i..] == EncodeAll16(rest)
    ensures buffer[offset..offset + j] == EncodeAll(head)
  {
    hide Encode, Encode16, EncodeAll, EncodeAll16;
    i, j, head, rest := start, 0, [], cps;
    EncodeNothing();
    var room := capacity - (U8_MAX_LENGTH - 1);
    while i < |s16| && j < room
      invariant start <= i <= |s16| && j <= capacity && (j == 0 ==> i == start) && (j > 0 ==> i > start)
      invariant buffer[..offset] == old(buffer[..offset])
      invariant cps == head + rest && Scalars(head) && Scalars(rest) && s16[i..] == EncodeAll16(rest)
      invariant buffer[offset..offset + j] == EncodeAll(head)
      decreases |s16| - i
    {
      Encode16Head(s16, i, rest);
      var c: int := s16[i];
      i := i + 1;
      if IsLead(c) {
        c := Supplementary(c, s16[i]);
        i := i + 1;
      }
      ghost var before := buffer[..offset + j];
      var n := WriteUtf8(buffer, offset + j, c);
      WrittenSoFar(buffer[..], before, offset, j, n, head, c);
      ghost var more := head + [c];
      assert cps == more + rest[1..];
      head, rest := more, rest[1..];
      j := j + n;
    }
  }

  lemma SameFine(edits: Edits, recs: seq<Units.Rec>)
    ensures edits.recs == recs ==> edits.Fine() == Join(Units.Atoms(recs), false)
  {
  }

  lemma EncodeNothing()
    ensures EncodeAll([]) == []
  {
  }

  lemma WrittenSoFar(buffer: seq<Byte>, before: seq<Byte>, offset: nat, j: nat, n: nat, head: seq<int>, c: int)
    requires offset + j + n <= |buffer| && before == buffer[..offset + j] && Scalars(head) && IsScalar(c)
    requires before[offset..] == EncodeAll(head) && buffer[offset + j..offset + j + n] == Encode(c)
    ensures Scalars(head + [c]) && buffer[offset..offset + j + n] == EncodeAll(head + [c])
    ensures buffer[..offset] == before[..offset]
  {
    hide Encode;
    EncodeConcat(head, [c]);
    assert [c][1..] == [];
    assert EncodeAll([c][1..]) == [];
    assert EncodeAll([c]) == Encode(c) + [];
    assert buffer[offset..offset + j] == before[offset..];
    assert buffer[offset..offset + j + n] == buffer[offset..offset + j] + buffer[offset + j..offset + j + n];
  }

  /** The sink received the UTF-8 form of the first `k` code points. */
  ghost predicate Sent(before: seq<Byte>, cps: seq<int>, k: nat, received: seq<Byte>)
    requires Scalars(cps)
  {
    k <= |cps| && received == before + EncodeAll(cps[..k])
  }

  lemma SentNothing(before: seq<Byte>, cps: seq<int>)
    requires Scalars(cps)
    ensures Sent(before, cps, 0, before)
  {
    assert EncodeAll(cps[..0]) == [];
  }

  /** The error that a log has after a replacement was added. */
  ghost function AfterReplace(edits: Edits, oldLength: Units.int32, newLength: nat): Units.ErrorCode
    requires edits.Valid()
    reads edits, edits.units
  {
    var sum := edits.delta + newLength - oldLength;
    if edits.errorCode != Units.ZeroError then edits.errorCode
    else if oldLength < 0 then Units.IllegalArgumentError
    else if oldLength == 0 && newLength == 0 then Units.ZeroError
    else if !(-0x8000_0000 <= sum < 0x8000_0000) then Units.IndexOutOfBoundsError
    else if edits.length + edits.ReplaceNeed(Span(true, oldLength, newLength)) > Units.INT32_MAX then
      Units.IndexOutOfBoundsError
    else Units.ZeroError
  }

  /** Appends the UTF-8 form of the text to the sink, and records that it replaces `length` units of the source. */
  method AppendChange(length: Units.int32, s16: seq<Unit16>, sink: ByteSink, edits: Edits?,
      errorCode: Units.ErrorCode, ghost cps: seq<int>)
    returns (ok: bool, outErrorCode: Units.ErrorCode)
    requires sink.Valid() && Scalars(cps) && s16 == EncodeAll16(cps)
    requires edits != null ==> edits.Valid()
    requires edits != null && sink.checked != null ==> edits.units as object != sink.checked.outbuf as object
    modifies sink, sink.checked, if sink.checked == null then {} else {sink.checked.outbuf}
    modifies edits, if edits == null then {} else {edits.units}
    ensures sink.Valid() && (edits != null ==> edits.Valid())
    ensures errorCode != Units.ZeroError ==> !ok && outErrorCode == errorCode && sink.received == old(sink.received)
    ensures errorCode == Units.ZeroError ==>
      && ok == (|EncodeAll(cps)| <= Units.INT32_MAX)
      && outErrorCode == (if ok then Units.ZeroError else Units.IndexOutOfBoundsError)
      && (ok ==> sink.received == old(sink.received) + EncodeAll(cps))
    // Without success the sink has whole characters from the start of the text, and the log is as it was.
    ensures !ok ==> exists k: nat :: Sent(old(sink.received), cps, k, sink.received)
    ensures !ok && edits != null ==> unchanged(edits) && unchanged(edits.units)
    // With success the log has the change, or the error that adding it sets.
    ensures ok && edits != null ==>
      edits.errorCode == old(AfterReplace(edits, length, |EncodeAll(cps)|))
    ensures ok && edits != null && edits.errorCode == Units.ZeroError ==> 0 <= length
    ensures ok && edits != null && edits.errorCode == Units.ZeroError && 0 < length + |EncodeAll(cps)| ==>
      edits.Fine() == old(edits.Fine()) + [Span(true, length, |EncodeAll(cps)|)]
    ensures ok && edits != null && length == 0 && cps == [] ==> edits.Fine() == old(edits.Fine())
  {
    hide Utf.Encode, EncodeAll, EncodeAll16, edits.Fine;
    if edits != null {
      SameFine(edits, edits.recs);
    }
    if errorCode != Units.ZeroError {
      SentNothing(sink.received, cps);
      return false, errorCode;
    }
    var s8Length;
    ok, s8Length := SendText(s16, sink, cps);
    if !ok {
      return false, Units.IndexOutOfBoundsError;
    }
    if edits != null {
      EncodeNothing();
      edits.AddReplace(length, s8Length);
      SameFine(edits, old(edits.recs));
    }
    return true, Units.ZeroError;
  }

  /** Sends the text to the sink, one buffer at a time. */
  method SendText(s16: seq<Unit16>, sink: ByteSink, ghost cps: seq<int>) returns (ok: bool, s8Length: int)
    requires sink.Valid() && Scalars(cps) && s16 == EncodeAll16(cps)
    modifies sink, sink.checked, if sink.checked == null then {} else {sink.checked.outbuf}
    ensures sink.Valid() && ok == (|EncodeAll(cps)| <= Units.INT32_MAX)
    ensures ok ==> s8Length == |EncodeAll(cps)| && sink.received == old(sink.received) + EncodeAll(cps)
    ensures !ok ==> exists k: nat :: Sent(old(sink.received), cps, k, sink.received)
  {
    hide Utf.Encode, Utf.Encode16, EncodeAll, EncodeAll16;
    var scratch := new Byte[SCRATCH_CAPACITY](_ => 0);
    s8Length := 0;
    var i := 0;
    ghost var sent, rest := [], cps;
    EncodeNothing();
    assert s16[0..] == s16;
    while i < |s16|
      invariant 0 <= i <= |s16| && sink.Valid() && Scalars(sent) && Scalars(rest)
      invariant cps == sent + rest && s16[i..] == EncodeAll16(rest)
      invariant s8Length == |EncodeAll(sent)| <= Units.INT32_MAX
      invariant sink.received == old(sink.received) + EncodeAll(sent)
      decreases |s16| - i
    {
      ghost var head, tail;
      i, ok, s8Length, head, tail := SendBuffer(s16, i, sink, scratch, s8Length, rest);
      EncodeConcat(sent, head);
      ghost var more := sent + head;
      assert cps == more + tail;
      if !ok {
        EncodeConcat(more, tail);
        assert cps[..|sent|] == sent;
        assert Sent(old(sink.received), cps, |sent|, sink.received);
        return;
      }
      assert old(sink.received) + EncodeAll(sent) + EncodeAll(head) == old(sink.received) + EncodeAll(more);
      sent, rest := more, tail;
    }
    NothingLeft(s16, rest);
    assert cps == sent;
    return true, s8Length;
  }

  /** Fills one buffer and hands it to the sink, unless the total would exceed what can be counted. */
  method SendBuffer(s16: seq<Unit16>, start: nat, sink: ByteSink, scratch: array<Byte>, s8LengthIn: int,
      ghost cps: seq<int>)
    returns (i: nat, ok: bool, s8Length: int, ghost head: seq<int>, ghost rest: seq<int>)
    requires sink.Valid() && start < |s16| && Scalars(cps) && s16[start..] == EncodeAll16(cps)
    requires scratch.Length == SCRATCH_CAPACITY && (sink.checked != null ==> scratch != sink.checked.outbuf)
    requires 0 <= s8LengthIn <= Units.INT32_MAX
    modifies sink, sink.checked, if sink.checked == null then {} else {sink.checked.outbuf}, scratch
    ensures sink.Valid() && start < i <= |s16|
    ensures cps == head + rest && Scalars(head) && Scalars(rest) && s16[i..] == EncodeAll16(rest)
    ensures ok == (s8LengthIn + |EncodeAll(head)| <= Units.INT32_MAX)
    ensures ok ==> s8Length == s8LengthIn + |EncodeAll(head)| && sink.received == old(sink.received) + EncodeAll(head)
    ensures !ok ==> sink.received == old(sink.received)
  {
    hide Utf.Encode, Utf.Encode16, EncodeAll, EncodeAll16;
    s8Length := s8LengthIn;
    var buffer, offset, capacity := sink.GetAppendBuffer(scratch);
    var j;
    i, j, head, rest := FillBuffer(s16, start, buffer, offset, capacity, cps);
    if j > Units.INT32_MAX - s8Length {
      return i, false, s8Length, head, rest;
    }
    sink.Append(buffer, offset, j);
    return i, true, s8Length + j, head, rest;
  }

  lemma NothingLeft(s16: seq<Unit16>, rest: seq<int>)
    requires Scalars(rest) && s16[|s16|..] == EncodeAll16(rest)
    ensures rest == []
  {
    assert s16[|s16|..] == [];
  }
}
