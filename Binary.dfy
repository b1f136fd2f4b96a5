/**
 * Kafka's binary message: a fixed-length byte string with a cursor, written
 * and read in big-endian order through typed accessors that check ranges
 * and available space.
 */
module Binary {
  import opened Wire
  import opened Errors

  /** The fixed-width integer encodings the message offers. */
  datatype NumberFormat = SignedByte | SignedShort | SignedInt | UnsignedInt | SignedLong {

    function Width(): nat {
      match this
      case SignedByte => 1
      case SignedShort => 2
      case SignedInt | UnsignedInt => 4
      case SignedLong => 8
    }

    function Lower(): int {
      match this
      case SignedByte => BYTE_MIN
      case SignedShort => SHORT_MIN
      case SignedInt => INT_MIN
      case UnsignedInt => UNSIGNED_INT_MIN
      case SignedLong => LONG_MIN
    }

    function Upper(): int {
      match this
      case SignedByte => BYTE_MAX
      case SignedShort => SHORT_MAX
      case SignedInt => INT_MAX
      case UnsignedInt => UNSIGNED_INT_MAX
      case SignedLong => LONG_MAX
    }

    /** The writer checks its range; the 64-bit writer relies on the PHP int type instead. */
    predicate Guarded() {
      this != SignedLong
    }
  }

  lemma Pow256Widths()
    ensures Pow256(1) == 256 && Pow256(2) == 0x1_0000
    ensures Pow256(4) == 0x1_0000_0000 && Pow256(8) == 0x1_0000_0000_0000_0000
  {
  }

  /** `w` written over `s` starting at `at` (substr_replace with equal lengths). */
  function Splice(s: seq<Byte>, at: nat, w: seq<Byte>): (r: seq<Byte>)
    requires at + |w| <= |s|
    ensures |r| == |s|
  {
    s[..at] + w + s[at + |w|..]
  }

  /** A splice holds `w` at `at` and leaves the bytes before and after it alone. */
  lemma SpliceContents(s: seq<Byte>, at: nat, w: seq<Byte>)
    requires at + |w| <= |s|
    ensures Splice(s, at, w)[at..at + |w|] == w
    ensures Splice(s, at, w)[..at] == s[..at] && Splice(s, at, w)[at + |w|..] == s[at + |w|..]
  {
  }

  /** Two adjacent writes are one write of the concatenation. */
  lemma SpliceTwice(s: seq<Byte>, at: nat, w1: seq<Byte>, w2: seq<Byte>)
    requires at + |w1| + |w2| <= |s|
    ensures Splice(Splice(s, at, w1), at + |w1|, w2) == Splice(s, at, w1 + w2)
  {
    var r := Splice(Splice(s, at, w1), at + |w1|, w2);
    assert r == s[..at] + w1 + w2 + s[at + |w1| + |w2|..];
  }

  /** Writing nothing changes nothing. */
  lemma SpliceEmpty(s: seq<Byte>, at: nat)
    requires at <= |s|
    ensures Splice(s, at, []) == s
  {
  }

  /**
   * What a typed write emits into a message with `room` bytes left, or the
   * exception it raises: the range guard comes first, then the space check.
   */
  function PutNumber(f: NumberFormat, x: int, room: int): (r: Result<seq<Byte>>)
    ensures r.Success? ==> |r.value| == f.Width() <= room
    ensures f.Guarded() && r.Success? ==> f.Lower() <= x <= f.Upper()
  {
    if f.Guarded() && (x < f.Lower() || x > f.Upper()) then
      Failure(ValueOutOfAllowedRange(x, f.Lower(), f.Upper()))
    else if room < f.Width() then
      Failure(NotEnoughBytesAllocated(f.Width()))
    else
      Success(Pack(x, f.Width()))
  }

  /** The `k` bytes at `p`, or NotEnoughBytesAllocated when fewer remain. */
  function Take(s: seq<Byte>, p: nat, k: nat): (r: Result<seq<Byte>>)
    requires p <= |s|
  {
    if |s| - p < k then Failure(NotEnoughBytesAllocated(k)) else Success(s[p..p + k])
  }

  /** The k bytes at p, with the rest of the message after them; NotEnoughBytesAllocated exactly when fewer remain. */
  lemma TakeBytes(s: seq<Byte>, p: nat, k: nat)
    requires p <= |s|
    ensures Take(s, p, k).Failure? <==> |s| - p < k
    ensures Take(s, p, k).Failure? ==> Take(s, p, k).error == NotEnoughBytesAllocated(k)
    ensures Take(s, p, k).Success? ==> |Take(s, p, k).value| == k && s[p..] == Take(s, p, k).value + s[p + k..]
  {
  }

  /**
   * What a typed read at `p` returns with the position after it. Short and
   * int go through convertToSigned; unpack('c') and unpack('J') perform the
   * same two's-complement reading for byte and long themselves.
   */
  function TakeNumber(f: NumberFormat, s: seq<Byte>, p: nat): (r: Result<(int, nat)>)
    requires p <= |s|
    ensures r.Success? ==> f.Lower() <= r.value.0 <= f.Upper()
    ensures r.Success? ==> r.value.1 == p + f.Width() <= |s|
    ensures r.Failure? <==> |s| - p < f.Width()
  {
    var bytes :- Take(s, p, f.Width());
    var u := FromBigEndian(bytes);
    Pow256Widths();
    if f == UnsignedInt then Success((u, p + f.Width()))
    else Success((ConvertToSigned(u, f.Upper(), Pow256(f.Width())), p + f.Width()))
  }

  /** A typed read of bytes a typed write emitted gives back the written value. */
  lemma NumberRoundTrip(f: NumberFormat, x: int, room: int, s: seq<Byte>, p: nat)
    requires PutNumber(f, x, room).Success?
    requires f == SignedLong ==> LONG_MIN <= x <= LONG_MAX
    requires p + f.Width() <= |s| && s[p..p + f.Width()] == PutNumber(f, x, room).value
    ensures TakeNumber(f, s, p) == Success((x, p + f.Width()))
  {
    var bytes := Pack(x, f.Width());
    assert Take(s, p, f.Width()) == Success(bytes);
    if f == UnsignedInt {
      Pow256Widths();
      PackUnsignedRoundTrip(x, f.Width());
    } else {
      SignedReadsBack(f, x);
    }
  }

  /** The signed formats read their own packing back, for every value in their range. */
  lemma SignedReadsBack(f: NumberFormat, x: int)
    requires f != UnsignedInt && f.Lower() <= x <= f.Upper()
    ensures ConvertToSigned(FromBigEndian(Pack(x, f.Width())), f.Upper(), Pow256(f.Width())) == x
  {
    Pow256Widths();
    assert f.Upper() == Pow256(f.Width()) / 2 - 1 && f.Lower() == -(Pow256(f.Width()) as int) / 2;
    PackSignedRoundTrip(x, f.Width());
  }

  /** The byte string behind Kafka's request and response bodies, with a read/write cursor. */
  class Message {
    var bytes: seq<Byte>
    const length: nat
    var position: nat

    ghost predicate Valid()
      reads this
    {
      |bytes| == length && position <= length
    }

    /** allocate(): `n` zero bytes, cursor at the start. */
    constructor Allocate(n: nat)
      ensures Valid() && length == n && position == 0
      ensures bytes == seq(n, _ => 0)
    {
      bytes := seq(n, _ => 0);
      length := n;
      position := 0;
    }

    /** fromContent(): the given bytes, cursor at the start. */
    constructor FromContent(content: seq<Byte>)
      ensures Valid() && bytes == content && length == |content| && position == 0
    {
      bytes := content;
      length := |content|;
      position := 0;
    }

    /** remaining(): the bytes from the cursor to the end. */
    function Remaining(): nat
      reads this
      requires Valid()
    {
      length - position
    }

    /** get(): `len` bytes from `offset`, without touching the cursor. */
    function Get(offset: nat, len: nat): (r: Result<seq<Byte>>)
      reads this
      requires Valid()
      ensures r.Success? <==> offset + len <= length
      ensures r.Success? ==> |r.value| == len && r.value == bytes[offset..offset + len]
      ensures r.Failure? ==> r.error == NotEnoughBytesAllocated(len)
    {
      if offset + len > length then Failure(NotEnoughBytesAllocated(len))
      else Success(bytes[offset..offset + len])
    }

    method Reset()
      modifies this`position
      ensures position == 0
    {
      position := 0;
    }

    /** The current offset, moving the cursor `k` bytes on, or NotEnoughBytesAllocated. */
    method NextIndex(k: nat) returns (r: Result<nat>)
      requires Valid()
      modifies this`position
      ensures Valid()
      ensures old(Remaining()) < k ==> r == Failure(NotEnoughBytesAllocated(k)) && position == old(position)
      ensures old(Remaining()) >= k ==> r == Success(old(position)) && position == old(position) + k
    {
      if length - position < k {
        return Failure(NotEnoughBytesAllocated(k));
      }
      r := Success(position);
      position := position + k;
    }

    /** Overwrites the bytes at the cursor with `value` and moves past them. */
    method Write(value: seq<Byte>) returns (r: Outcome)
      requires Valid()
      modifies this
      ensures Valid()
      ensures old(Remaining()) < |value| ==> r == Fail(NotEnoughBytesAllocated(|value|))
      ensures old(Remaining()) < |value| ==> bytes == old(bytes) && position == old(position)
      ensures old(Remaining()) >= |value| ==> r == Pass
      ensures old(Remaining()) >= |value| ==>
                bytes == Splice(old(bytes), old(position), value) && position == old(position) + |value|
    {
      var offset := NextIndex(|value|);
      if offset.Failure? {
        return Fail(offset.error);
      }
      bytes := Splice(bytes, offset.value, value);
      r := Pass;
    }

    /** The `k` bytes at the cursor, moving past them. */
    method Read(k: nat) returns (r: Result<seq<Byte>>)
      requires Valid()
      modifies this`position
      ensures Valid()
      ensures r == Take(bytes, old(position), k)
      ensures position == if r.Success? then old(position) + k else old(position)
    {
      var offset := NextIndex(k);
      if offset.Failure? {
        return Failure(offset.error);
      }
      r := Success(bytes[offset.value..offset.value + k]);
    }

    /** guardBounds, then write of the packed value. */
    method WriteNumber(f: NumberFormat, x: int) returns (r: Outcome)
      requires Valid()
      modifies this
      ensures Valid()
      ensures r == PutNumber(f, x, old(Remaining())).ToOutcome()
      ensures r.Pass? ==> bytes == Splice(old(bytes), old(position), Pack(x, f.Width()))
      ensures r.Pass? ==> position == old(position) + f.Width()
      ensures r.Fail? ==> bytes == old(bytes) && position == old(position)
    {
      if f.Guarded() && (x < f.Lower() || x > f.Upper()) {
        return Fail(ValueOutOfAllowedRange(x, f.Lower(), f.Upper()));
      }
      r := Write(Pack(x, f.Width()));
    }

    /** read of the format's width, then the two's-complement reading. */
    method ReadNumber(f: NumberFormat) returns (r: Result<int>)
      requires Valid()
      modifies this`position
      ensures Valid()
      ensures var t := TakeNumber(f, bytes, old(position));
        if t.Success? then r == Success(t.value.0) && position == t.value.1
        else r == Failure(t.error) && position == old(position)
    {
      var raw := Read(f.Width());
      if raw.Failure? {
        return Failure(raw.error);
      }
      var u := FromBigEndian(raw.value);
      Pow256Widths();
      if f == UnsignedInt {
        r := Success(u);
      } else {
        r := Success(ConvertToSigned(u, f.Upper(), Pow256(f.Width())));
      }
    }

    method WriteByte(x: int) returns (r: Outcome)
      requires Valid()
      modifies this
      ensures Valid()
      ensures r == PutNumber(SignedByte, x, old(Remaining())).ToOutcome()
      ensures r.Pass? ==> bytes == Splice(old(bytes), old(position), Pack(x, 1)) && position == old(position) + 1
      ensures r.Fail? ==> bytes == old(bytes) && position == old(position)
    {
      r := WriteNumber(SignedByte, x);
    }

    method WriteShort(x: int) returns (r: Outcome)
      requires Valid()
      modifies this
      ensures Valid()
      ensures r == PutNumber(SignedShort, x, old(Remaining())).ToOutcome()
      ensures r.Pass? ==> bytes == Splice(old(bytes), old(position), Pack(x, 2)) && position == old(position) + 2
      ensures r.Fail? ==> bytes == old(bytes) && position == old(position)
    {
      r := WriteNumber(SignedShort, x);
    }

    method WriteInt(x: int) returns (r: Outcome)
      requires Valid()
      modifies this
      ensures Valid()
      ensures r == PutNumber(SignedInt, x, old(Remaining())).ToOutcome()
      ensures r.Pass? ==> bytes == Splice(old(bytes), old(position), Pack(x, 4)) && position == old(position) + 4
      ensures r.Fail? ==> bytes == old(bytes) && position == old(position)
    {
      r := WriteNumber(SignedInt, x);
    }

    method WriteUnsignedInt(x: int) returns (r: Outcome)
      requires Valid()
      modifies this
      ensures Valid()
      ensures r == PutNumber(UnsignedInt, x, old(Remaining())).ToOutcome()
      ensures r.Pass? ==> bytes == Splice(old(bytes), old(position), Pack(x, 4)) && position == old(position) + 4
      ensures r.Fail? ==> bytes == old(bytes) && position == old(position)
    {
      r := WriteNumber(UnsignedInt, x);
    }

    method WriteLong(x: PhpInt) returns (r: Outcome)
      requires Valid()
      modifies this
      ensures Valid()
      ensures r == PutNumber(SignedLong, x, old(Remaining())).ToOutcome()
      ensures r.Pass? ==> bytes == Splice(old(bytes), old(position), Pack(x, 8)) && position == old(position) + 8
      ensures r.Fail? ==> bytes == old(bytes) && position == old(position)
    {
      r := WriteNumber(SignedLong, x);
    }

    method ReadByte() returns (r: Result<int>)
      requires Valid()
      modifies this`position
      ensures Valid()
      ensures var t := TakeNumber(SignedByte, bytes, old(position));
        if t.Success? then r == Success(t.value.0) && position == t.value.1
        else r == Failure(t.error) && position == old(position)
    {
      r := ReadNumber(SignedByte);
    }

    method ReadShort() returns (r: Result<int>)
      requires Valid()
      modifies this`position
      ensures Valid()
      ensures var t := TakeNumber(SignedShort, bytes, old(position));
        if t.Success? then r == Success(t.value.0) && position == t.value.1
        else r == Failure(t.error) && position == old(position)
    {
      r := ReadNumber(SignedShort);
    }

    method ReadInt() returns (r: Result<int>)
      requires Valid()
      modifies this`position
      ensures Valid()
      ensures var t := TakeNumber(SignedInt, bytes, old(position));
        if t.Success? then r == Success(t.value.0) && position == t.value.1
        else r == Failure(t.error) && position == old(position)
    {
      r := ReadNumber(SignedInt);
    }

    method ReadUnsignedInt() returns (r: Result<int>)
      requires Valid()
      modifies this`position
      ensures Valid()
      ensures var t := TakeNumber(UnsignedInt, bytes, old(position));
        if t.Success? then r == Success(t.value.0) && position == t.value.1
        else r == Failure(t.error) && position == old(position)
    {
      r := ReadNumber(UnsignedInt);
    }

    method ReadLong() returns (r: Result<int>)
      requires Valid()
      modifies this`position
      ensures Valid()
      ensures var t := TakeNumber(SignedLong, bytes, old(position));
        if t.Success? then r == Success(t.value.0) && position == t.value.1
        else r == Failure(t.error) && position == old(position)
    {
      r := ReadNumber(SignedLong);
    }
  }

  /** The boundary values of each writer land in two's complement, as the message tests spell them out. */
  lemma BoundaryEncodings()
    ensures Pack(-128, 1) + Pack(127, 1) == [0x80, 0x7f]
    ensures Pack(-32768, 2) + Pack(32767, 2) == [0x80, 0x00, 0x7f, 0xff]
    ensures Pack(-0x8000_0000, 4) + Pack(0x7fff_ffff, 4) == [0x80, 0, 0, 0, 0x7f, 0xff, 0xff, 0xff]
    ensures Pack(0xffff_ffff, 4) == [0xff, 0xff, 0xff, 0xff]
    ensures Pack(LONG_MIN, 8) + Pack(LONG_MAX, 8) ==
      [0x80, 0, 0, 0, 0, 0, 0, 0, 0x7f, 0xff, 0xff, 0xff, 0xff, 0xff, 0xff, 0xff]
  {
    Pow256Widths();
    LongBounds();
  }

  /** The int64 bounds, one byte at a time from the low end. */
  lemma LongBounds()
    ensures Pack(LONG_MIN, 8) == [0x80, 0, 0, 0, 0, 0, 0, 0]
    ensures Pack(LONG_MAX, 8) == [0x7f, 0xff, 0xff, 0xff, 0xff, 0xff, 0xff, 0xff]
  {
    assert Pack(-0x80, 1) == [0x80];
    assert Pack(-0x8000, 2) == [0x80, 0];
    assert Pack(-0x80_0000, 3) == [0x80, 0, 0];
    assert Pack(-0x8000_0000, 4) == [0x80, 0, 0, 0];
    assert Pack(-0x80_0000_0000, 5) == [0x80, 0, 0, 0, 0];
    assert Pack(-0x8000_0000_0000, 6) == [0x80, 0, 0, 0, 0, 0];
    assert Pack(-0x80_0000_0000_0000, 7) == [0x80, 0, 0, 0, 0, 0, 0];
    assert Pack(0x7f, 1) == [0x7f];
    assert Pack(0x7fff, 2) == [0x7f, 0xff];
    assert Pack(0x7f_ffff, 3) == [0x7f, 0xff, 0xff];
    assert Pack(0x7fff_ffff, 4) == [0x7f, 0xff, 0xff, 0xff];
    assert Pack(0x7f_ffff_ffff, 5) == [0x7f, 0xff, 0xff, 0xff, 0xff];
    assert Pack(0x7fff_ffff_ffff, 6) == [0x7f, 0xff, 0xff, 0xff, 0xff, 0xff];
    assert Pack(0x7f_ffff_ffff_ffff, 7) == [0x7f, 0xff, 0xff, 0xff, 0xff, 0xff, 0xff];
  }
}
