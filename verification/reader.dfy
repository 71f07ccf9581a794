/** Bounded reads from the immutable file buffer: the behaviour of
    `np.frombuffer(data, offset=..., dtype=..., count=...)` behind
    `_read_value` and `_read_values`. A read never clamps and never pads:
    it either yields exactly the requested octets or stops the parse. */
module Reader {
  import opened Wrappers
  import opened Bytes
  import opened Float32

  /** Why a parse stopped: the error type of the whole decoder, shared by
      the reads here and by the two checks that follow them (the anchor of
      the cycle loop and the measurement date). */
  datatype Error =
    /** An offset outside the buffer, or fewer octets left than requested. */
    | Truncated(offset: int, size: int)
    /** A read of "the rest of the buffer" whose length is not a whole number of items. */
    | Ragged(offset: int, itemSize: nat)
    /** A cycle was decoded but no scan-table entry has type 0x11, so the
        timestamp anchor is absent. */
    | NoDataScan
    /** The measurement date in the general header is not a calendar date. */
    | InvalidDate

  type Parse<T> = Result<T, Error>

  /** How many `size`-octet records a read of `count` records from `offset`
      yields. A non-negative `count` must fit in the buffer; a negative one
      asks for every record up to the end of the buffer, which must then hold
      a whole number of them. */
  function RecordCount(available: nat, offset: int, size: nat, count: int): (r: Parse<nat>)
    requires size > 0
    ensures count >= 0 ==> (r.Success? <==> 0 <= offset && offset + count * size <= available)
    ensures count >= 0 && r.Success? ==> r.value == count
    ensures count >= 0 && r.Failure? ==> r.error == Truncated(offset, count * size)
    ensures count < 0 ==> (r.Success? <==> 0 <= offset <= available && (available - offset) % size == 0)
    ensures count < 0 && r.Success? ==> offset + r.value * size == available
    ensures count < 0 && r.Failure? ==>
      r.error == if offset < 0 || offset > available then Truncated(offset, 0) else Ragged(offset, size)
  {
    if count >= 0 then
      if offset < 0 || offset + count * size > available then Failure(Truncated(offset, count * size))
      else Success(count)
    else if offset < 0 || offset > available then Failure(Truncated(offset, 0))
    else if (available - offset) % size != 0 then Failure(Ragged(offset, size))
    else Success((available - offset) / size)
  }

  function ReadU16(buf: seq<byte>, offset: int): (r: Parse<nat>)
    ensures r.Success? <==> 0 <= offset && offset + 2 <= |buf|
    ensures r.Success? ==> r.value == U16At(buf, offset)
    ensures r.Failure? ==> r.error == Truncated(offset, 2)
  {
    if offset < 0 || offset + 2 > |buf| then Failure(Truncated(offset, 2))
    else Success(U16At(buf, offset))
  }

  function ReadI16(buf: seq<byte>, offset: int): (r: Parse<int>)
    ensures r.Success? <==> 0 <= offset && offset + 2 <= |buf|
    ensures r.Success? ==> r.value == I16At(buf, offset)
    ensures r.Failure? ==> r.error == Truncated(offset, 2)
  {
    if offset < 0 || offset + 2 > |buf| then Failure(Truncated(offset, 2))
    else Success(I16At(buf, offset))
  }

  function ReadU32(buf: seq<byte>, offset: int): (r: Parse<nat>)
    ensures r.Success? <==> 0 <= offset && offset + 4 <= |buf|
    ensures r.Success? ==> r.value == U32At(buf, offset)
    ensures r.Failure? ==> r.error == Truncated(offset, 4)
  {
    if offset < 0 || offset + 4 > |buf| then Failure(Truncated(offset, 4))
    else Success(U32At(buf, offset))
  }

  /** `count` binary32 values stored one after the other from `offset`. */
  function ReadF32s(buf: seq<byte>, offset: int, count: nat): (r: Parse<seq<F32>>)
    ensures r.Success? <==> 0 <= offset && offset + 4 * count <= |buf|
    ensures r.Success? ==> |r.value| == count
    ensures r.Success? ==> forall k :: 0 <= k < count ==>
      offset + 4 * k + 4 <= |buf| && r.value[k] == F32At(buf, offset + 4 * k)
    ensures r.Failure? ==> r.error == Truncated(offset, 4 * count)
  {
    var n :- RecordCount(|buf|, offset, 4, count);
    Success(seq(n, k requires 0 <= k < n => F32At(buf, offset + 4 * k)))
  }

  /** The values read depend on nothing but the octets they cover. */
  lemma ReadF32sLocal(buf: seq<byte>, buf': seq<byte>, offset: int, count: nat)
    requires |buf| == |buf'|
    requires forall i :: 0 <= offset <= i < offset + 4 * count <= |buf| ==> buf[i] == buf'[i]
    ensures ReadF32s(buf, offset, count) == ReadF32s(buf', offset, count)
  {
    var a := ReadF32s(buf, offset, count);
    var b := ReadF32s(buf', offset, count);
    if a.Success? {
      forall k | 0 <= k < count
        ensures a.value[k] == b.value[k]
      {
        var at := offset + 4 * k;
        assert buf[at] == buf'[at] && buf[at + 1] == buf'[at + 1];
        assert buf[at + 2] == buf'[at + 2] && buf[at + 3] == buf'[at + 3];
      }
      assert a.value == b.value;
    }
  }

  /** The `n` octets from `at`, element by element. */
  function Octets(buf: seq<byte>, at: nat, n: nat): (s: seq<byte>)
    requires at + n <= |buf|
    ensures |s| == n
  {
    seq(n, i requires 0 <= i < n => buf[at + i])
  }

  /** The `width`-octet text field at `at` as numpy hands it over: its
      trailing NUL octets removed. */
  function TextAt(buf: seq<byte>, at: nat, width: nat): (t: seq<byte>)
    requires at + width <= |buf|
    ensures |t| <= width
    decreases width
  {
    if width == 0 || buf[at + width - 1] != 0 then Octets(buf, at, width)
    else TextAt(buf, at, width - 1)
  }

  /** A fixed-width `|S` field as numpy hands it over: trailing NUL octets removed. */
  function TrimNul(s: seq<byte>): (t: seq<byte>)
    ensures t <= s
    ensures |t| == 0 || t[|t| - 1] != 0
    ensures forall i :: |t| <= i < |s| ==> s[i] == 0
  {
    if |s| == 0 || s[|s| - 1] != 0 then s else TrimNul(s[..|s| - 1])
  }

  /** `t` stored in a `width`-octet field, NUL-padded on the right. */
  function PadNul(t: seq<byte>, width: nat): (s: seq<byte>)
    requires |t| <= width
    ensures |s| == width && s[..|t|] == t
  {
    t + seq(width - |t|, _ => 0)
  }

  /** Padding then trimming gives back every text that does not itself end in NUL. */
  lemma TrimPad(t: seq<byte>, width: nat)
    requires |t| <= width && (|t| == 0 || t[|t| - 1] != 0)
    ensures TrimNul(PadNul(t, width)) == t
  {
  }

  /** Trimming loses nothing: the removed octets were all NUL. */
  lemma {:induction false} PadTrim(s: seq<byte>)
    ensures PadNul(TrimNul(s), |s|) == s
  {
    var t := TrimNul(s);
    assert PadNul(t, |s|)[..|t|] == s[..|t|];
  }

  /** A text field is its octets with the NUL padding trimmed. */
  lemma {:induction false} TextAtIsTrimNul(buf: seq<byte>, at: nat, width: nat)
    requires at + width <= |buf|
    ensures TextAt(buf, at, width) == TrimNul(buf[at .. at + width])
    decreases width
  {
    var s := buf[at .. at + width];
    if width > 0 && buf[at + width - 1] == 0 {
      assert s[..width - 1] == buf[at .. at + width - 1];
      TextAtIsTrimNul(buf, at, width - 1);
    } else {
      assert Octets(buf, at, width) == s;
    }
  }

  /** A text field depends on nothing but the octets it covers. */
  lemma {:induction false} TextAtLocal(buf: seq<byte>, buf': seq<byte>, at: nat, width: nat)
    requires at + width <= |buf| && at + width <= |buf'|
    requires forall i :: at <= i < at + width ==> buf[i] == buf'[i]
    ensures TextAt(buf, at, width) == TextAt(buf', at, width)
    decreases width
  {
    if width > 0 && buf[at + width - 1] == 0 {
      TextAtLocal(buf, buf', at, width - 1);
    } else {
      assert Octets(buf, at, width) == Octets(buf', at, width);
    }
  }
}
