/**
 * Python's `struct` module in network byte order (`!`), restricted to the
 * integer codes the three tools use: `B`/`b` (1 byte), `H` (2), `I` (4) and
 * `Q` (8). `pack` raises `struct.error` when a value does not fit its code or
 * when the number of values is wrong; `unpack` raises it when the buffer is
 * not exactly the format's size. Both are modelled with `Option`, `None`
 * standing for `struct.error`.
 */
module StructFormat {
  import opened Wrappers
  import opened Bytes

  /** The byte width of a format code; Python has no zero-width integer code. */
  type Width = w: nat | 1 <= w witness 1

  /** One format code: `Unsigned(2)` is `H`, `Signed(1)` is `b`, and so on. */
  datatype Field = Unsigned(width: Width) | Signed(width: Width)

  type Format = seq<Field>

  /** Half the number of values of a field: the bound of a signed code. */
  function Half(w: Width): (h: nat)
    ensures Pow256(w) == 2 * h
  {
    Pow256(w) / 2
  }

  /** The values `pack` accepts for one code. */
  predicate Fits(f: Field, v: int)
  {
    match f
    case Unsigned(w) => 0 <= v < Pow256(w)
    case Signed(w) => -(Half(w) as int) <= v < Half(w)
  }

  /** One value in big-endian; signed codes use two's complement. */
  function EncodeField(f: Field, v: int): (r: Bytes)
    requires Fits(f, v)
    ensures |r| == f.width
  {
    match f
    case Unsigned(w) => ToBigEndian(v, w)
    case Signed(w) => ToBigEndian(if v < 0 then v + Pow256(w) else v, w)
  }

  /** One value read back from exactly `f.width` bytes. */
  function DecodeField(f: Field, b: Bytes): (v: int)
    requires |b| == f.width
    ensures Fits(f, v)
  {
    FromBigEndianBound(b);
    match f
    case Unsigned(_) => FromBigEndian(b)
    case Signed(w) =>
      var u := FromBigEndian(b);
      if u < Half(w) then u else u - Pow256(w)
  }

  /** Decoding what was encoded gives the value back. */
  lemma DecodeEncodeField(f: Field, v: int)
    requires Fits(f, v)
    ensures DecodeField(f, EncodeField(f, v)) == v
  {
    match f
    case Unsigned(w) => FromToBigEndian(v, w);
    case Signed(w) => FromToBigEndian(if v < 0 then v + Pow256(w) else v, w);
  }

  /** Encoding what was decoded gives the bytes back. */
  lemma EncodeDecodeField(f: Field, b: Bytes)
    requires |b| == f.width
    ensures EncodeField(f, DecodeField(f, b)) == b
  {
    ToFromBigEndian(b);
    FromBigEndianBound(b);
  }

  /** A `H` field is its high byte then its low byte. */
  lemma EncodeU16(v: int)
    requires 0 <= v < 65536
    ensures EncodeField(Unsigned(2), v) == [(v / 256) as byte, (v % 256) as byte]
  {
    assert Pow256(2) == 65536;
    assert ToBigEndian(v, 2) == ToBigEndian(v / 256, 1) + [(v % 256) as byte];
    assert ToBigEndian(v / 256, 1) == ToBigEndian(v / 256 / 256, 0) + [(v / 256 % 256) as byte];
  }

  /** `struct.calcsize`: the number of bytes a format packs into. */
  function Size(fmt: Format): nat
  {
    if fmt == [] then 0 else fmt[0].width + Size(fmt[1..])
  }

  /** The byte offset at which field `i` of `fmt` starts. */
  function Offset(fmt: Format, i: nat): nat
    requires i <= |fmt|
  {
    Size(fmt[..i])
  }

  /** Each field starts where the previous one ends. */
  lemma OffsetNext(fmt: Format, i: nat)
    requires i < |fmt|
    ensures Offset(fmt, i + 1) == Offset(fmt, i) + fmt[i].width
  {
    assert fmt[..i + 1] == fmt[..i] + [fmt[i]];
    SizeAppend(fmt[..i], [fmt[i]]);
  }

  /** One value per code, and each value fits its code. */
  predicate Packable(fmt: Format, vals: seq<int>)
  {
    |vals| == |fmt| && (fmt == [] || (Fits(fmt[0], vals[0]) && Packable(fmt[1..], vals[1..])))
  }

  /** The bytes of a packable list: each value's encoding, in format order. */
  function PackBytes(fmt: Format, vals: seq<int>): (r: Bytes)
    requires Packable(fmt, vals)
    ensures |r| == Size(fmt)
  {
    if fmt == [] then [] else EncodeField(fmt[0], vals[0]) + PackBytes(fmt[1..], vals[1..])
  }

  /** `struct.pack(fmt, *vals)`; `None` is the `struct.error` it raises. */
  function Pack(fmt: Format, vals: seq<int>): (r: Option<Bytes>)
    ensures r.Some? <==> Packable(fmt, vals)
    ensures r.Some? ==> |r.value| == Size(fmt)
  {
    if Packable(fmt, vals) then Some(PackBytes(fmt, vals)) else None
  }

  /** `Packable` is the element-wise condition `pack` checks. */
  lemma {:induction false} PackableAt(fmt: Format, vals: seq<int>)
    ensures Packable(fmt, vals) <==>
      |vals| == |fmt| && forall i :: 0 <= i < |fmt| ==> Fits(fmt[i], vals[i])
  {
    if fmt != [] && |vals| == |fmt| {
      PackableAt(fmt[1..], vals[1..]);
      if forall i :: 0 <= i < |fmt| ==> Fits(fmt[i], vals[i]) {
        forall i | 0 <= i < |fmt| - 1 ensures Fits(fmt[1..][i], vals[1..][i]) {
          assert Fits(fmt[i + 1], vals[i + 1]);
        }
      }
      if Packable(fmt, vals) {
        forall i | 0 < i < |fmt| ensures Fits(fmt[i], vals[i]) {
          assert Fits(fmt[1..][i - 1], vals[1..][i - 1]);
        }
      }
    }
  }

  /** A packed buffer is its first field's encoding followed by the rest. */
  lemma PackBytesUnfold(fmt: Format, vals: seq<int>)
    requires Packable(fmt, vals) && fmt != []
    ensures Packable(fmt[1..], vals[1..])
    ensures PackBytes(fmt, vals) == EncodeField(fmt[0], vals[0]) + PackBytes(fmt[1..], vals[1..])
  {
  }

  /** A list of zeros, one per code, is packable into a buffer of zeros. */
  lemma {:induction false} PackZeros(fmt: Format)
    ensures Packable(fmt, seq(|fmt|, _ => 0))
    ensures PackBytes(fmt, seq(|fmt|, _ => 0)) == Zeros(Size(fmt))
  {
    var zs: seq<int> := seq(|fmt|, _ => 0);
    if fmt != [] {
      PackZeros(fmt[1..]);
      assert zs[1..] == seq(|fmt| - 1, _ => 0);
      ZeroBigEndian(fmt[0].width);
      assert EncodeField(fmt[0], 0) == Zeros(fmt[0].width);
      assert Zeros(fmt[0].width) + Zeros(Size(fmt[1..])) == Zeros(Size(fmt));
    }
  }

  /** A repeat count in a format string: `11I` is `Repeat(Unsigned(4), 11)`. */
  function Repeat(f: Field, n: nat): (fmt: Format)
    ensures |fmt| == n && forall i :: 0 <= i < n ==> fmt[i] == f
  {
    seq(n, _ => f)
  }

  /** `n` repetitions of a code take `n` times its width. */
  lemma {:induction false} SizeRepeat(f: Field, n: nat)
    ensures Size(Repeat(f, n)) == n * f.width
  {
    if n > 0 {
      SizeRepeat(f, n - 1);
      assert Repeat(f, n)[1..] == Repeat(f, n - 1);
    }
  }

  /** The size of two formats one after the other. */
  lemma {:induction false} SizeAppend(fmt1: Format, fmt2: Format)
    ensures Size(fmt1 + fmt2) == Size(fmt1) + Size(fmt2)
  {
    if fmt1 == [] {
      assert fmt1 + fmt2 == fmt2;
    } else {
      SizeAppend(fmt1[1..], fmt2);
      assert (fmt1 + fmt2)[1..] == fmt1[1..] + fmt2;
    }
  }

  /** The values of a buffer of exactly the format's size. */
  function UnpackExact(fmt: Format, data: Bytes): (vals: seq<int>)
    requires |data| == Size(fmt)
    ensures Packable(fmt, vals)
  {
    if fmt == [] then []
    else
      var w := fmt[0].width;
      var vals := [DecodeField(fmt[0], data[..w])] + UnpackExact(fmt[1..], data[w..]);
      assert vals[1..] == UnpackExact(fmt[1..], data[w..]);
      vals
  }

  /** `struct.unpack(fmt, data)`; `None` is the `struct.error` it raises. */
  function Unpack(fmt: Format, data: Bytes): (r: Option<seq<int>>)
    ensures r.Some? <==> |data| == Size(fmt)
    ensures r.Some? ==> Packable(fmt, r.value)
  {
    if |data| == Size(fmt) then Some(UnpackExact(fmt, data)) else None
  }

  /** Unpacking what was packed gives back the packed values. */
  lemma {:induction false} UnpackPack(fmt: Format, vals: seq<int>)
    requires Packable(fmt, vals)
    ensures Unpack(fmt, Pack(fmt, vals).value) == Some(vals)
  {
    if fmt != [] {
      var tailFmt, tailVals := fmt[1..], vals[1..];
      UnpackPack(tailFmt, tailVals);
      var head := EncodeField(fmt[0], vals[0]);
      var rest := PackBytes(tailFmt, tailVals);
      var data := head + rest;
      assert PackBytes(fmt, vals) == data;
      assert data[..fmt[0].width] == head && data[fmt[0].width..] == rest;
      DecodeEncodeField(fmt[0], vals[0]);
      assert UnpackExact(fmt, data) == [vals[0]] + tailVals;
      assert vals == [vals[0]] + tailVals;
    }
  }

  /** Packing what was unpacked gives back the buffer: the layout loses nothing. */
  lemma {:induction false} PackUnpack(fmt: Format, data: Bytes)
    requires |data| == Size(fmt)
    ensures Pack(fmt, Unpack(fmt, data).value) == Some(data)
  {
    if fmt != [] {
      var w := fmt[0].width;
      var vals := UnpackExact(fmt, data);
      UnpackExactUnfold(fmt, data);
      assert vals[0] == DecodeField(fmt[0], data[..w]);
      assert vals[1..] == UnpackExact(fmt[1..], data[w..]);
      PackUnpack(fmt[1..], data[w..]);
      assert PackBytes(fmt[1..], vals[1..]) == data[w..];
      EncodeDecodeField(fmt[0], data[..w]);
      PackBytesUnfold(fmt, vals);
      assert data == data[..w] + data[w..];
    }
  }

  /** A slice past the first part of a concatenation is a slice of the second part. */
  lemma SliceAfter(a: Bytes, b: Bytes, lo: nat, hi: nat)
    requires lo <= hi <= |b|
    ensures (a + b)[|a| + lo..|a| + hi] == b[lo..hi]
  {
  }

  /** Offsets in a format are its head's width plus offsets in its tail. */
  lemma OffsetStep(fmt: Format, i: nat)
    requires 1 <= i <= |fmt|
    ensures Offset(fmt, i) == fmt[0].width + Offset(fmt[1..], i - 1)
  {
    assert fmt[..i][1..] == fmt[1..][..i - 1];
  }

  /** Every value of a packable list fits its code. */
  lemma {:induction false} PackableFits(fmt: Format, vals: seq<int>, i: nat)
    requires Packable(fmt, vals) && i < |fmt|
    ensures Fits(fmt[i], vals[i])
  {
    if i > 0 {
      PackableFits(fmt[1..], vals[1..], i - 1);
    }
  }

  /** The first field of a packed buffer is at its front. */
  lemma PackFieldFirst(fmt: Format, vals: seq<int>)
    requires Packable(fmt, vals) && fmt != []
    ensures Offset(fmt, 0) == 0 && fmt[0].width <= Size(fmt)
    ensures PackBytes(fmt, vals)[0..fmt[0].width] == EncodeField(fmt[0], vals[0])
  {
    assert fmt[..0] == [];
    var head, rest := EncodeField(fmt[0], vals[0]), PackBytes(fmt[1..], vals[1..]);
    assert PackBytes(fmt, vals) == head + rest;
    assert (head + rest)[0..|head|] == head;
  }

  /** Field `i` of a packed buffer, found from field `i - 1` of its tail. */
  lemma PackFieldShift(fmt: Format, vals: seq<int>, i: nat)
    requires Packable(fmt, vals) && 1 <= i < |fmt|
    requires Packable(fmt[1..], vals[1..]) && Fits(fmt[i], vals[i])
    requires Offset(fmt[1..], i - 1) + fmt[i].width <= Size(fmt[1..])
    requires PackBytes(fmt[1..], vals[1..])[Offset(fmt[1..], i - 1)..Offset(fmt[1..], i - 1) + fmt[i].width]
          == EncodeField(fmt[i], vals[i])
    ensures Offset(fmt, i) + fmt[i].width <= Size(fmt)
    ensures PackBytes(fmt, vals)[Offset(fmt, i)..Offset(fmt, i) + fmt[i].width]
         == EncodeField(fmt[i], vals[i])
  {
    OffsetStep(fmt, i);
    PackBytesUnfold(fmt, vals);
    ShiftedField(PackBytes(fmt, vals), EncodeField(fmt[0], vals[0]), PackBytes(fmt[1..], vals[1..]),
                 Offset(fmt, i), Offset(fmt[1..], i - 1), EncodeField(fmt[i], vals[i]));
  }

  /** A piece found at `off` in the second part of a concatenation is found `|head|` further on in the whole. */
  lemma ShiftedField(whole: Bytes, head: Bytes, rest: Bytes, at: nat, off: nat, piece: Bytes)
    requires whole == head + rest && at == |head| + off
    requires off + |piece| <= |rest| && rest[off..off + |piece|] == piece
    ensures at + |piece| <= |whole| && whole[at..at + |piece|] == piece
  {
    SliceAfter(head, rest, off, off + |piece|);
  }

  /** In a packed buffer, field `i` occupies `Offset(fmt, i)` onwards and holds its encoding. */
  lemma {:induction false} PackFieldAt(fmt: Format, vals: seq<int>, i: nat)
    requires Packable(fmt, vals) && i < |fmt|
    ensures Fits(fmt[i], vals[i])
    ensures Offset(fmt, i) + fmt[i].width <= Size(fmt)
    ensures PackBytes(fmt, vals)[Offset(fmt, i)..Offset(fmt, i) + fmt[i].width]
         == EncodeField(fmt[i], vals[i])
  {
    PackableFits(fmt, vals, i);
    if i == 0 {
      PackFieldFirst(fmt, vals);
    } else {
      PackFieldAt(fmt[1..], vals[1..], i - 1);
      assert fmt[1..][i - 1] == fmt[i] && vals[1..][i - 1] == vals[i];
      PackFieldShift(fmt, vals, i);
    }
  }

  /** Unpacked value `i` is the decoding of the bytes at `Offset(fmt, i)`. */
  lemma {:induction false} UnpackFieldAt(fmt: Format, data: Bytes, i: nat)
    requires |data| == Size(fmt) && i < |fmt|
    ensures Offset(fmt, i) + fmt[i].width <= |data|
    ensures Unpack(fmt, data).value[i]
         == DecodeField(fmt[i], data[Offset(fmt, i)..Offset(fmt, i) + fmt[i].width])
  {
    var w := fmt[0].width;
    if i == 0 {
      assert fmt[..0] == [];
    } else {
      var tailFmt, tailData := fmt[1..], data[w..];
      UnpackFieldAt(tailFmt, tailData, i - 1);
      OffsetStep(fmt, i);
      var off := Offset(tailFmt, i - 1);
      UnpackExactUnfold(fmt, data);
      assert UnpackExact(fmt, data)[i] == UnpackExact(tailFmt, tailData)[i - 1];
      assert tailFmt[i - 1] == fmt[i];
      DropSlice(data, w, off, off + fmt[i].width);
      assert data[Offset(fmt, i)..Offset(fmt, i) + fmt[i].width] == tailData[off..off + fmt[i].width];
    }
  }

  /** A slice of the bytes after the first `w` is a slice of the whole. */
  lemma DropSlice(data: Bytes, w: nat, lo: nat, hi: nat)
    requires w <= |data| && lo <= hi <= |data| - w
    ensures data[w..][lo..hi] == data[w + lo..w + hi]
  {
  }

  /** An unpacked list is the first field's value followed by the values of the rest. */
  lemma UnpackExactUnfold(fmt: Format, data: Bytes)
    requires |data| == Size(fmt) && fmt != []
    ensures fmt[0].width <= |data|
    ensures UnpackExact(fmt, data)
         == [DecodeField(fmt[0], data[..fmt[0].width])] + UnpackExact(fmt[1..], data[fmt[0].width..])
  {
  }
}
