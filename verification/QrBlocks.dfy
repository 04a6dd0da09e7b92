/** Splitting the data of a QR symbol into blocks, interleaving data and check bytes column by
    column, and taking the columns apart again. */
module QrBlocks {
  import opened BinaryDigits
  import opened BitArray
  import opened BitSource
  import opened GaloisField
  import opened Polynomials
  import opened ReedSolomonEncoder
  import opened Wrappers

  datatype BlockError = WrongDataSize | BlockTooLarge | SizeMismatch | EncodingFailed

  // ---------------------------------------------------------------- columns

  /** Entry t of every block that has one, in block order. */
  function Column(bs: seq<seq<nat>>, t: nat): seq<nat> {
    if bs == [] then [] else (if t < |bs[0]| then [bs[0][t]] else []) + Column(bs[1..], t)
  }

  /** The columns below t, one after another. */
  function Columns(bs: seq<seq<nat>>, t: nat): seq<nat> {
    if t == 0 then [] else Columns(bs, t - 1) + Column(bs, t - 1)
  }

  function MaxLength(bs: seq<seq<nat>>): (n: nat)
    ensures forall r :: 0 <= r < |bs| ==> |bs[r]| <= n
  {
    if bs == [] then 0
    else
      var m := MaxLength(bs[1..]);
      assert forall r :: 1 <= r < |bs| ==> bs[r] == bs[1..][r - 1];
      if |bs[0]| >= m then |bs[0]| else m
  }

  function Interleaved(bs: seq<seq<nat>>): seq<nat> {
    Columns(bs, MaxLength(bs))
  }

  /** The first a blocks have k entries, the others one more. */
  ghost predicate Shaped(bs: seq<seq<nat>>, a: nat, k: nat) {
    a <= |bs| && forall r :: 0 <= r < |bs| ==> |bs[r]| == if r < a then k else k + 1
  }

  lemma {:induction false} ColumnAt(bs: seq<seq<nat>>, t: nat)
    requires forall r :: 0 <= r < |bs| ==> t < |bs[r]|
    ensures |Column(bs, t)| == |bs|
    ensures forall r :: 0 <= r < |bs| ==> Column(bs, t)[r] == bs[r][t]
    decreases |bs|
  {
    if bs != [] {
      ColumnAt(bs[1..], t);
    }
  }

  /** The last column of a shaped list holds the extra entries of the longer blocks. */
  lemma {:induction false} LastColumn(bs: seq<seq<nat>>, a: nat, k: nat)
    requires Shaped(bs, a, k)
    ensures |Column(bs, k)| == |bs| - a
    ensures forall r :: a <= r < |bs| ==> Column(bs, k)[r - a] == bs[r][k]
    decreases |bs|
  {
    if bs != [] {
      if a > 0 {
        LastColumn(bs[1..], a - 1, k);
        assert Column(bs, k) == Column(bs[1..], k);
      } else {
        ColumnAt(bs, k);
      }
    }
  }

  lemma IndexOrder(t: nat, r: nat, n: nat, u: nat)
    requires r < n && t < u
    ensures t * n + r < u * n
  {
    assert (u - t) * n >= n by {
      MulAtLeast(n, u - t);
      assert (u - t) * n == n * (u - t);
    }
    assert u * n == t * n + (u - t) * n;
  }

  /** Where the columns below u put entry t of block r. */
  lemma {:induction false} ColumnsAt(bs: seq<seq<nat>>, u: nat, t: nat, r: nat)
    requires forall r :: 0 <= r < |bs| ==> u <= |bs[r]|
    requires t < u && r < |bs|
    ensures |Columns(bs, u)| == u * |bs| && t * |bs| + r < u * |bs|
    ensures Columns(bs, u)[t * |bs| + r] == bs[r][t]
    decreases u
  {
    hide Column;
    ColumnsLength(bs, u);
    IndexOrder(t, r, |bs|, u);
    ColumnsLength(bs, u - 1);
    ColumnAt(bs, u - 1);
    OneMore(u - 1, |bs|);
    if t < u - 1 {
      IndexOrder(t, r, |bs|, u - 1);
      ColumnsAt(bs, u - 1, t, r);
    }
  }

  lemma {:induction false} ColumnsLength(bs: seq<seq<nat>>, u: nat)
    requires forall r :: 0 <= r < |bs| ==> u <= |bs[r]|
    ensures |Columns(bs, u)| == u * |bs|
    decreases u
  {
    hide Column;
    if u > 0 {
      ColumnsLength(bs, u - 1);
      ColumnAt(bs, u - 1);
      OneMore(u - 1, |bs|);
    }
  }

  lemma OneMore(u: nat, n: nat)
    ensures (u + 1) * n == u * n + n
  {
  }

  /** Columns beyond every block add nothing. */
  lemma {:induction false} EmptyColumn(bs: seq<seq<nat>>, t: nat)
    requires forall r :: 0 <= r < |bs| ==> |bs[r]| <= t
    ensures Column(bs, t) == []
    decreases |bs|
  {
    if bs != [] {
      EmptyColumn(bs[1..], t);
    }
  }

  lemma ShapedInterleaved(bs: seq<seq<nat>>, a: nat, k: nat)
    requires Shaped(bs, a, k)
    ensures Interleaved(bs) == Columns(bs, k) + (if a < |bs| then Column(bs, k) else [])
  {
    if bs == [] {
      NoColumns(k);
    } else if a < |bs| {
      assert MaxLength(bs) == k + 1 by {
        MaxReached(bs);
        assert |bs[a]| == k + 1;
      }
    } else {
      MaxReached(bs);
    }
  }

  lemma {:induction false} NoColumns(t: nat)
    ensures Columns([], t) == []
  {
    if t > 0 {
      NoColumns(t - 1);
    }
  }

  lemma {:induction false} MaxReached(bs: seq<seq<nat>>)
    requires bs != []
    ensures exists r :: 0 <= r < |bs| && |bs[r]| == MaxLength(bs)
    decreases |bs|
  {
    if |bs| > 1 && |bs[0]| < MaxLength(bs[1..]) {
      MaxReached(bs[1..]);
      var r :| 0 <= r < |bs[1..]| && |bs[1..][r]| == MaxLength(bs[1..]);
      assert bs[r + 1] == bs[1..][r];
    } else {
      assert |bs[0]| == MaxLength(bs);
    }
  }

  // ---------------------------------------------------------------- taking apart

  /** Index of entry j of block r in the interleaved codewords: n blocks, the first a of them with
      k data bytes and the rest with one more, each with the same number of check bytes. */
  function SourceIndex(n: nat, a: nat, k: nat, r: nat, j: nat): nat
    requires a <= n && r < n
  {
    if j < k then j * n + r
    else if r >= a && j == k then k * n + (r - a)
    else k * n + (n - a) + (j - k - if r >= a then 1 else 0) * n + r
  }

  function DataLength(a: nat, k: nat, r: nat): nat {
    if r < a then k else k + 1
  }

  lemma SourceInRange(n: nat, a: nat, k: nat, m: nat, r: nat, j: nat)
    requires a <= n && r < n && j < DataLength(a, k, r) + m
    ensures SourceIndex(n, a, k, r, j) < k * n + (n - a) + m * n
  {
    if j < k {
      IndexOrder(j, r, n, k);
    } else if !(r >= a && j == k) {
      IndexOrder(j - DataLength(a, k, r), r, n, m);
    }
  }

  /** The blocks the decoder reads out of the interleaved codewords. */
  function TakenApart(raw: seq<nat>, n: nat, a: nat, k: nat, m: nat): (bs: seq<seq<nat>>)
    requires a <= n && |raw| == k * n + (n - a) + m * n
    ensures |bs| == n
    ensures forall r :: 0 <= r < n ==> |bs[r]| == DataLength(a, k, r) + m
  {
    seq(n, r requires 0 <= r < n => BlockOf(raw, n, a, k, m, r))
  }

  function BlockOf(raw: seq<nat>, n: nat, a: nat, k: nat, m: nat, r: nat): (b: seq<nat>)
    requires a <= n && |raw| == k * n + (n - a) + m * n && r < n
    ensures |b| == DataLength(a, k, r) + m
  {
    seq(DataLength(a, k, r) + m, j requires 0 <= j < DataLength(a, k, r) + m =>
      (SourceInRange(n, a, k, m, r, j); raw[SourceIndex(n, a, k, r, j)]))
  }

  /** Joining each block's data and check bytes. */
  function Joined(data: seq<seq<nat>>, ec: seq<seq<nat>>): (bs: seq<seq<nat>>)
    requires |data| == |ec|
    ensures |bs| == |data| && forall r :: 0 <= r < |bs| ==> bs[r] == data[r] + ec[r]
  {
    seq(|data|, r requires 0 <= r < |data| => data[r] + ec[r])
  }

  /** Taking apart what was interleaved gives every block back. */
  lemma InterleaveRoundTrip(data: seq<seq<nat>>, ec: seq<seq<nat>>, a: nat, k: nat, m: nat)
    requires |data| == |ec| && Shaped(data, a, k)
    requires forall r :: 0 <= r < |ec| ==> |ec[r]| == m
    ensures var n, raw := |data|, Interleaved(data) + Interleaved(ec);
            |raw| == k * n + (n - a) + m * n && TakenApart(raw, n, a, k, m) == Joined(data, ec)
  {
    hide BlockOf, Interleaved, Shaped;
    var n, raw := |data|, Interleaved(data) + Interleaved(ec);
    InterleavedLength(data, ec, a, k, m);
    forall r | 0 <= r < n ensures BlockOf(raw, n, a, k, m, r) == data[r] + ec[r] {
      BlockRoundTrip(data, ec, a, k, m, r);
    }
  }

  lemma InterleavedLength(data: seq<seq<nat>>, ec: seq<seq<nat>>, a: nat, k: nat, m: nat)
    requires |data| == |ec| && Shaped(data, a, k)
    requires forall r :: 0 <= r < |ec| ==> |ec[r]| == m
    ensures a <= |data| && |Interleaved(data)| == k * |data| + (|data| - a) && |Interleaved(ec)| == m * |data|
  {
    hide Column, Columns, Interleaved;
    ShapedInterleaved(data, a, k);
    ShapedInterleaved(ec, |ec|, m);
    ColumnsLength(data, k);
    LastColumn(data, a, k);
    ColumnsLength(ec, m);
  }

  lemma BlockRoundTrip(data: seq<seq<nat>>, ec: seq<seq<nat>>, a: nat, k: nat, m: nat, r: nat)
    requires |data| == |ec| && Shaped(data, a, k) && r < |data|
    requires forall r :: 0 <= r < |ec| ==> |ec[r]| == m
    requires |Interleaved(data)| == k * |data| + (|data| - a) && |Interleaved(ec)| == m * |data|
    ensures BlockOf(Interleaved(data) + Interleaved(ec), |data|, a, k, m, r) == data[r] + ec[r]
  {
    hide SourceIndex, Interleaved;
    var n, raw := |data|, Interleaved(data) + Interleaved(ec);
    forall j | 0 <= j < |data[r]| + m ensures BlockOf(raw, n, a, k, m, r)[j] == (data[r] + ec[r])[j] {
      SourceInRange(n, a, k, m, r, j);
      EntryRoundTrip(data, ec, a, k, m, r, j);
    }
  }

  lemma EntryRoundTrip(data: seq<seq<nat>>, ec: seq<seq<nat>>, a: nat, k: nat, m: nat, r: nat, j: nat)
    requires |data| == |ec| && Shaped(data, a, k) && r < |data|
    requires forall r :: 0 <= r < |ec| ==> |ec[r]| == m
    requires j < |data[r]| + m
    requires |Interleaved(data)| == k * |data| + (|data| - a) && |Interleaved(ec)| == m * |data|
    requires SourceIndex(|data|, a, k, r, j) < k * |data| + (|data| - a) + m * |data|
    ensures (Interleaved(data) + Interleaved(ec))[SourceIndex(|data|, a, k, r, j)] == (data[r] + ec[r])[j]
  {
    hide Columns, MaxLength, Interleaved;
    if j < |data[r]| {
      DataEntry(data, a, k, r, j);
    } else {
      var t := j - |data[r]|;
      CheckEntry(ec, m, r, t);
      assert SourceIndex(|data|, a, k, r, j) == |Interleaved(data)| + (t * |data| + r);
    }
  }

  lemma DataEntry(data: seq<seq<nat>>, a: nat, k: nat, r: nat, j: nat)
    requires Shaped(data, a, k) && r < |data| && j < |data[r]|
    ensures SourceIndex(|data|, a, k, r, j) < |Interleaved(data)|
    ensures Interleaved(data)[SourceIndex(|data|, a, k, r, j)] == data[r][j]
  {
    hide Columns, MaxLength, Interleaved, Column;
    ShapedInterleaved(data, a, k);
    ColumnsLength(data, k);
    if j < k {
      ColumnsAt(data, k, j, r);
    } else {
      LastColumn(data, a, k);
    }
  }

  lemma CheckEntry(ec: seq<seq<nat>>, m: nat, r: nat, t: nat)
    requires (forall r :: 0 <= r < |ec| ==> |ec[r]| == m) && r < |ec| && t < m
    ensures t * |ec| + r < |Interleaved(ec)| && Interleaved(ec)[t * |ec| + r] == ec[r][t]
  {
    hide Columns, MaxLength, Interleaved;
    ShapedInterleaved(ec, |ec|, m);
    ColumnsAt(ec, m, t, r);
  }

  // ---------------------------------------------------------------- block sizes

  /** Data and check bytes of block id: the first blocks are the short ones. */
  method GetNumDataBytesAndNumECBytesForBlockID(total: nat, data: nat, n: nat, id: nat) returns (r: Result<(nat, nat), BlockError>)
    requires n > 0 && data <= total
    ensures id >= n <==> r == Err(BlockTooLarge)
    ensures id < n ==> r == Ok((DataLength(n - total % n, data / n, id), total / n - data / n))
    ensures r.Ok? ==> r.value.0 == data / n + if id >= n - total % n then 1 else 0
  {
    if id >= n {
      return Err(BlockTooLarge);
    }
    var group2 := total % n;
    var group1 := n - group2;
    var total1 := total / n;
    var total2 := total1 + 1;
    var data1 := data / n;
    var data2 := data1 + 1;
    var ec1, ec2 := total1 - data1, total2 - data2;
    if ec1 != ec2 {
      return Err(SizeMismatch);
    }
    if n != group1 + group2 {
      return Err(SizeMismatch);
    }
    BlockTotal(total, n);
    BlockProducts(data1, ec1, data2, ec2, total1, total2, group1, group2);
    if total != (data1 + ec1) * group1 + (data2 + ec2) * group2 {
      return Err(SizeMismatch);
    }
    DivMonotone(data, total, n);
    return Ok(if id < group1 then (data1, ec1) else (data2, ec2));
  }

  lemma DivMonotone(a: nat, b: nat, n: nat)
    requires a <= b && n > 0
    ensures a / n <= b / n
  {
    assert n * (a / n - b / n) == n * (a / n) - n * (b / n);
    if a / n > b / n {
      MulAtLeast(n, a / n - b / n);
    }
  }

  lemma BlockTotal(total: nat, n: nat)
    requires n > 0
    ensures total == (total / n) * (n - total % n) + (total / n + 1) * (total % n)
  {
    var q, r := total / n, total % n;
    assert total == n * q + r;
    assert q * (n - r) + (q + 1) * r == q * n + r;
  }

  lemma BlockProducts(d1: nat, e1: int, d2: nat, e2: int, t1: nat, t2: nat, g1: nat, g2: nat)
    requires d1 + e1 == t1 && d2 + e2 == t2
    ensures (d1 + e1) * g1 + (d2 + e2) * g2 == t1 * g1 + t2 * g2
  {
  }

  /** The data bytes of the blocks below id. */
  function DataBefore(total: nat, data: nat, n: nat, id: nat): nat
    requires n > 0
  {
    if id == 0 then 0 else DataBefore(total, data, n, id - 1) + DataLength(n - total % n, data / n, id - 1)
  }

  lemma {:induction false} DataBeforeIs(total: nat, data: nat, n: nat, id: nat)
    requires n > 0 && id <= n
    ensures DataBefore(total, data, n, id) == id * (data / n) + Extra(n - total % n, id)
  {
    hide DataBefore, DataLength, Extra;
    BlockCount(total, n);
    var a, k := n - total % n, data / n;
    NothingBefore(total, data, n, k);
    if id > 0 {
      DataBeforeIs(total, data, n, id - 1);
      BeforeOneMore(total, data, n, id - 1);
      OneMoreBlock(a, k, id - 1);
    }
  }

  lemma BlockCount(total: nat, n: nat)
    requires n > 0
    ensures 0 < n - total % n <= n
  {
  }

  lemma NothingBefore(total: nat, data: nat, n: nat, k: nat)
    requires n > 0
    ensures DataBefore(total, data, n, 0) == 0 * k + Extra(n - total % n, 0)
  {
  }

  lemma BeforeOneMore(total: nat, data: nat, n: nat, id: nat)
    requires n > 0
    ensures DataBefore(total, data, n, id + 1) == DataBefore(total, data, n, id) + DataLength(n - total % n, data / n, id)
  {
    hide DataLength;
  }

  /** One byte more for each of the first id blocks that is not among the a short ones. */
  function Extra(a: nat, id: nat): nat {
    if id <= a then 0 else id - a
  }

  lemma OneMoreBlock(a: nat, k: nat, id: nat)
    ensures id * k + Extra(a, id) + DataLength(a, k, id) == (id + 1) * k + Extra(a, id + 1)
  {
    OneMore(id, k);
  }

  /** The block sizes add up to the data total exactly when data and total leave the same remainder. */
  lemma SizesAddUp(total: nat, data: nat, n: nat)
    requires n > 0
    ensures DataBefore(total, data, n, n) == data <==> data % n == total % n
  {
    DataBeforeIs(total, data, n, n);
    assert data == n * (data / n) + data % n;
  }

  // ---------------------------------------------------------------- the encoder's loops

  /** The bits of a list of bytes. */
  function ByteBits(bytes: seq<nat>): seq<bool> {
    if bytes == [] then [] else Digits(bytes[0], 8) + ByteBits(bytes[1..])
  }

  lemma {:induction false} ByteBitsAppend(s: seq<nat>, t: seq<nat>)
    ensures ByteBits(s + t) == ByteBits(s) + ByteBits(t)
    decreases |s|
  {
    if s == [] {
      assert s + t == t;
    } else {
      assert (s + t)[1..] == s[1..] + t;
      ByteBitsAppend(s[1..], t);
    }
  }

  lemma {:induction false} ByteBitsLength(s: seq<nat>)
    ensures |ByteBits(s)| == 8 * |s|
  {
    if s != [] {
      ByteBitsLength(s[1..]);
    }
  }

  /** The two nested loops that write one kind of bytes column by column. */
  method AppendColumns(bs: seq<seq<nat>>, most: nat, bits: BitArray)
    requires bits.Valid()
    modifies bits, bits.bits
    ensures bits.Valid() && (bits.bits == old(bits.bits) || fresh(bits.bits))
    ensures bits.Contents() == old(bits.Contents()) + ByteBits(Columns(bs, most))
  {
    hide CleanTail, BitsOf, Column;
    assert ByteBits(Columns(bs, 0)) == [];
    for t := 0 to most
      invariant bits.Valid() && (bits.bits == old(bits.bits) || fresh(bits.bits))
      invariant bits.Contents() == old(bits.Contents()) + ByteBits(Columns(bs, t))
    {
      AppendColumn(bs, t, bits);
      ByteBitsAppend(Columns(bs, t), Column(bs, t));
    }
  }

  method AppendColumn(bs: seq<seq<nat>>, t: nat, bits: BitArray)
    requires bits.Valid()
    modifies bits, bits.bits
    ensures bits.Valid() && (bits.bits == old(bits.bits) || fresh(bits.bits))
    ensures bits.Contents() == old(bits.Contents()) + ByteBits(Column(bs, t))
  {
    hide Digits;
    for r := 0 to |bs|
      invariant bits.Valid() && (bits.bits == old(bits.bits) || fresh(bits.bits))
      invariant bits.Contents() + ByteBits(Column(bs[r..], t)) == old(bits.Contents()) + ByteBits(Column(bs, t))
    {
      ghost var rest := bs[r..];
      assert rest[1..] == bs[r + 1..];
      if t < |bs[r]| {
        ByteBitsAppend([bs[r][t]], Column(rest[1..], t));
        assert ByteBits([bs[r][t]]) == Digits(bs[r][t], 8) + ByteBits([]);
        var _ := bits.AppendBits(bs[r][t], 8);
      } else {
        assert Column(rest, t) == Column(rest[1..], t);
      }
    }
    assert bs[|bs|..] == [];
  }

  /** Data bytes as field elements. */
  function Numbers(bytes: seq<bv8>): (s: seq<nat>)
    ensures |s| == |bytes| && forall i :: 0 <= i < |s| ==> s[i] < 256
  {
    seq(|bytes|, i requires 0 <= i < |bytes| => bytes[i] as nat)
  }

  /** The check bytes of one block. */
  method GenerateECBytes(f: GenericGF, data: array<bv8>, n: nat) returns (r: Result<seq<nat>, EncodeError>)
    requires ByteField(f) && n + f.generatorBase <= f.size
    ensures r.Ok? <==> n > 0 && data.Length > 0
    ensures r.Ok? ==> |r.value| == n && IsCodeword(f, Numbers(data[..]) + r.value, n)
  {
    hide IsCodeword, GenericGF.Lawful;
    FieldFacts(f);
    var toEncode := new nat[data.Length + n](_ => 0);
    for i := 0 to data.Length
      invariant forall k :: 0 <= k < i ==> toEncode[k] == data[k] as nat
      invariant forall k :: i <= k < toEncode.Length ==> toEncode[k] == 0
    {
      toEncode[i] := data[i] as nat;
    }
    var encoder := new ReedSolomonEncoder(f);
    var encoded := encoder.Encode(toEncode, n);
    if encoded.Err? {
      return Err(encoded.error);
    }
    ghost var word := toEncode[..];
    var ec := new nat[n](_ => 0);
    for i := 0 to n
      invariant toEncode[..] == word
      invariant forall k :: 0 <= k < i ==> ec[k] == toEncode[data.Length + k]
    {
      ec[i] := toEncode[data.Length + i];
    }
    assert toEncode[..data.Length] == Numbers(data[..]);
    assert toEncode[..] == Numbers(data[..]) + ec[..];
    return Ok(ec[..]);
  }

  /** The data slices and check bytes of the blocks below id. */
  ghost predicate BlocksDone(f: GenericGF, bytes: seq<nat>, total: nat, n: nat, id: nat, data: seq<seq<nat>>, ec: seq<seq<nat>>)
    requires n > 0 && |bytes| <= total
  {
    && |data| == |ec| == id
    && forall r :: 0 <= r < id ==>
         && DataBefore(total, |bytes|, n, r) + DataLength(n - total % n, |bytes| / n, r) <= |bytes|
         && data[r] == bytes[DataBefore(total, |bytes|, n, r)..][..DataLength(n - total % n, |bytes| / n, r)]
         && |ec[r]| == total / n - |bytes| / n
         && IsCodeword(f, data[r] + ec[r], total / n - |bytes| / n)
  }

  lemma BlockInside(total: nat, data: nat, n: nat, id: nat)
    requires n > 0 && id < n && data <= total
    requires DataBefore(total, data, n, n) <= data
    ensures DataBefore(total, data, n, id) + DataLength(n - total % n, data / n, id) <= data
    decreases n - id
  {
    if id + 1 < n {
      BlockInside(total, data, n, id + 1);
    }
  }

  /** What the interleaving encoder accepts. */
  ghost predicate Interleavable(size: nat, total: nat, data: nat, n: nat)
    requires n > 0
  {
    (size + 7) / 8 == data && data % n == total % n && 0 < data / n < total / n
  }

  /** One block: its data slice and its check bytes. */
  method BuildBlock(f: GenericGF, bits: BitArray, total: nat, data: nat, n: nat, id: nat, offset: nat)
    returns (r: Result<(seq<nat>, seq<nat>), BlockError>, size: nat)
    requires bits.Valid() && ByteField(f) && n > 0 && data <= total && id < n
    requires total / n - data / n + f.generatorBase <= f.size && (bits.size + 7) / 8 == data
    ensures size == DataLength(n - total % n, data / n, id)
    ensures r.Ok? <==> 0 < size && data / n < total / n
    ensures r.Ok? ==> |r.value.1| == total / n - data / n && IsCodeword(f, r.value.0 + r.value.1, total / n - data / n)
    ensures r.Ok? && offset + size <= data ==> r.value.0 == Numbers(Packed(bits.Contents(), data))[offset..][..size]
  {
    hide IsCodeword, GenericGF.Lawful, PackByte, CleanTail, BitsOf, DataLength;
    var sizes := GetNumDataBytesAndNumECBytesForBlockID(total, data, n, id);
    DivMonotone(data, total, n);
    var checks := sizes.value.1;
    size := sizes.value.0;
    var block := new bv8[size](_ => 0);
    bits.ToBytes(8 * offset, block, 0, size);
    var ec := GenerateECBytes(f, block, checks);
    if ec.Err? {
      return Err(EncodingFailed), size;
    }
    if offset + size <= data {
      SliceOfPacked(bits.Contents(), data, offset, block[..]);
    }
    return Ok((Numbers(block[..]), ec.value)), size;
  }

  lemma SliceOfPacked(s: seq<bool>, data: nat, offset: nat, block: seq<bv8>)
    requires offset + |block| <= data && forall k :: 0 <= k < |block| ==> block[k] == PackByte(s, 8 * (offset + k))
    ensures Numbers(block) == Numbers(Packed(s, data))[offset..][..|block|]
  {
    hide PackByte;
  }

  /** All blocks: data cut in order, check bytes computed. */
  method BuildBlocks(f: GenericGF, bits: BitArray, total: nat, data: nat, n: nat)
    returns (r: Result<(seq<seq<nat>>, seq<seq<nat>>), BlockError>)
    requires bits.Valid() && ByteField(f) && n > 0 && data <= total
    requires total / n - data / n + f.generatorBase <= f.size
    requires (bits.size + 7) / 8 == data
    ensures r.Ok? <==> data % n == total % n && 0 < data / n < total / n
    ensures r.Ok? ==> BlocksDone(f, Numbers(Packed(bits.Contents(), data)), total, n, n, r.value.0, r.value.1)
  {
    hide IsCodeword, GenericGF.Lawful, Packed, CleanTail, BitsOf, DataBefore, Numbers;
    ghost var bytes := Numbers(Packed(bits.Contents(), data));
    SizesAddUp(total, data, n);
    BlockCount(total, n);
    NothingBefore(total, data, n, 0);
    var offset := 0;
    var ds: seq<seq<nat>>, es: seq<seq<nat>> := [], [];
    for id := 0 to n
      invariant offset == DataBefore(total, data, n, id)
      invariant |ds| == |es| == id
      invariant id > 0 ==> 0 < data / n < total / n
      invariant data % n == total % n ==> BlocksDone(f, bytes, total, n, id, ds, es)
    {
      if data % n == total % n {
        BlockInside(total, data, n, id);
      }
      var block, size := BuildBlock(f, bits, total, data, n, id, offset);
      BeforeOneMore(total, data, n, id);
      if block.Err? {
        return Err(EncodingFailed);
      }
      ds, es := ds + [block.value.0], es + [block.value.1];
      offset := offset + size;
    }
    if data != offset {
      return Err(SizeMismatch);
    }
    return Ok((ds, es));
  }

  method InterleaveWithECBytes(f: GenericGF, bits: BitArray, total: nat, data: nat, n: nat)
    returns (r: Result<BitArray, BlockError>, ghost ds: seq<seq<nat>>, ghost es: seq<seq<nat>>)
    requires bits.Valid() && ByteField(f) && n > 0 && data <= total
    requires total / n - data / n + f.generatorBase <= f.size
    ensures r.Ok? <==> Interleavable(bits.size, total, data, n)
    ensures r.Ok? ==>
              && fresh(r.value) && fresh(r.value.bits) && r.value.Valid()
              && BlocksDone(f, Numbers(Packed(bits.Contents(), data)), total, n, n, ds, es)
              && r.value.Contents() == ByteBits(Interleaved(ds) + Interleaved(es))
  {
    hide IsCodeword, GenericGF.Lawful, CleanTail, BitsOf, BlocksDone, Packed, Columns, ByteBits;
    ds, es := [], [];
    if bits.GetSizeInBytes() != data {
      r := Err(WrongDataSize);
      return;
    }
    var blocks := BuildBlocks(f, bits, total, data, n);
    if blocks.Err? {
      r := Err(blocks.error);
      return;
    }
    var (dataBlocks, checkBlocks) := blocks.value;
    ds, es := dataBlocks, checkBlocks;
    var out := new BitArray();
    AppendColumns(dataBlocks, MaxLength(dataBlocks), out);
    AppendColumns(checkBlocks, MaxLength(checkBlocks), out);
    ByteBitsAppend(Interleaved(ds), Interleaved(es));
    InterleavedTotal(f, Numbers(Packed(bits.Contents(), data)), total, n, ds, es);
    ByteBitsLength(Interleaved(ds) + Interleaved(es));
    if total != out.GetSizeInBytes() {
      r := Err(SizeMismatch);
      return;
    }
    r := Ok(out);
  }

  /** The blocks have the two sizes the decoder expects. */
  lemma BlocksShaped(f: GenericGF, bytes: seq<nat>, total: nat, n: nat, ds: seq<seq<nat>>, es: seq<seq<nat>>)
    requires n > 0 && |bytes| <= total && BlocksDone(f, bytes, total, n, n, ds, es)
    ensures |ds| == |es| == n && Shaped(ds, n - total % n, |bytes| / n)
    ensures forall r :: 0 <= r < n ==> |es[r]| == total / n - |bytes| / n
  {
  }

  lemma InterleavedTotal(f: GenericGF, bytes: seq<nat>, total: nat, n: nat, ds: seq<seq<nat>>, es: seq<seq<nat>>)
    requires n > 0 && |bytes| <= total && BlocksDone(f, bytes, total, n, n, ds, es)
    requires |bytes| % n == total % n && |bytes| / n <= total / n
    ensures |Interleaved(ds)| + |Interleaved(es)| == total
  {
    hide *;
    var a, k, m := n - total % n, |bytes| / n, total / n - |bytes| / n;
    BlocksShaped(f, bytes, total, n, ds, es);
    InterleaveRoundTrip(ds, es, a, k, m);
    TotalSplit(total, |bytes|, n);
  }

  lemma TotalSplit(total: nat, data: nat, n: nat)
    requires n > 0 && data / n <= total / n && data % n == total % n
    ensures (data / n) * n + total % n + (total / n - data / n) * n == total
  {
    var q, k := total / n, data / n;
    assert total == n * q + total % n;
    assert k * n + (q - k) * n == q * n;
  }

  // ---------------------------------------------------------------- the decoder's loops

  /** A group of equal blocks in the error correction table: how many, and their data bytes. */
  datatype BlockGroup = BlockGroup(count: nat, dataCodewords: nat)

  datatype DataBlock = DataBlock(numDataCodewords: nat, codewords: seq<nat>)

  /** How far block q is filled: to entry e, or e + shift from block c on, and one further below block r. */
  function Limit(c: nat, e: nat, shift: nat, r: nat, q: nat): nat {
    (if q < c then e else e + shift) + (if q < r then 1 else 0)
  }

  ghost predicate Filled(cw: seq<seq<nat>>, bs: seq<seq<nat>>, c: nat, e: nat, shift: nat, r: nat) {
    && |cw| == |bs|
    && forall q :: 0 <= q < |bs| ==> FilledTo(cw[q], bs[q], Limit(c, e, shift, r, q))
  }

  ghost predicate FilledTo(b: seq<nat>, target: seq<nat>, l: nat) {
    |b| == |target| && l <= |b| && b[..l] == target[..l]
  }

  lemma FillOne(b: seq<nat>, target: seq<nat>, l: nat)
    requires FilledTo(b, target, l) && l < |target|
    ensures FilledTo(b[l := target[l]], target, l + 1)
  {
    var b' := b[l := target[l]];
    forall i | 0 <= i < l + 1 ensures b'[i] == target[i] {
      if i < l {
        assert b[..l][i] == target[..l][i];
      }
    }
  }

  /** One pass over the blocks: entry e of the blocks below c, entry e + shift of the others. */
  method FillRow(raw: seq<nat>, cw0: seq<seq<nat>>, ghost bs: seq<seq<nat>>, from: nat, c: nat, e: nat, shift: nat)
    returns (cw: seq<seq<nat>>, u: nat)
    requires Filled(cw0, bs, c, e, shift, 0) && from + |bs| <= |raw|
    requires forall r :: 0 <= r < |bs| ==> Limit(c, e, shift, 0, r) < |bs[r]| && bs[r][Limit(c, e, shift, 0, r)] == raw[from + r]
    ensures Filled(cw, bs, c, e + 1, shift, 0) && u == from + |bs|
  {
    hide FilledTo;
    cw, u := cw0, from;
    for r := 0 to |cw0|
      invariant u == from + r && Filled(cw, bs, c, e, shift, r)
    {
      FillOne(cw[r], bs[r], Limit(c, e, shift, r, r));
      FilledInside(cw[r], bs[r], Limit(c, e, shift, r, r));
      cw := cw[r := cw[r][if r < c then e else e + shift := raw[u]]];
      u := u + 1;
    }
  }

  lemma FilledInside(b: seq<nat>, target: seq<nat>, l: nat)
    requires FilledTo(b, target, l)
    ensures |b| == |target|
  {
  }

  /** Reads the blocks out of the raw codewords, in the order in which they were interleaved. */
  method GetDataBlocks(raw: seq<nat>, total: nat, groups: seq<BlockGroup>, ecPerBlock: nat, ghost a: nat, ghost k: nat)
    returns (r: Result<seq<DataBlock>, BlockError>)
    requires GroupLengths(groups) == BlockLengths(|GroupLengths(groups)|, a, k)
    requires 0 < a <= |GroupLengths(groups)|
    requires total == k * |GroupLengths(groups)| + (|GroupLengths(groups)| - a) + ecPerBlock * |GroupLengths(groups)|
    ensures |raw| != total ==> r == Err(WrongDataSize)
    ensures |raw| == total ==>
              var n := |GroupLengths(groups)|;
              && r.Ok? && |r.value| == n
              && forall q :: 0 <= q < n ==> r.value[q] == DataBlock(DataLength(a, k, q), TakenApart(raw, n, a, k, ecPerBlock)[q])
  {
    hide Filled, BlockOf, SourceIndex;
    if |raw| != total {
      return Err(WrongDataSize);
    }
    var lengths, cw := NewBlocks(groups, ecPerBlock);
    var n := |lengths|;
    ghost var bs := TakenApart(raw, n, a, k, ecPerBlock);
    StartFilled(cw, bs, n);
    var shortest := |cw[0]|;
    var c := LongerBlocksStartAt(cw, lengths, shortest, a, k, ecPerBlock);
    var d := shortest - ecPerBlock;
    var u := 0;
    for e := 0 to d
      invariant u == e * n && Filled(cw, bs, n, e, 0, 0)
    {
      DataRow(raw, n, a, k, ecPerBlock, e);
      cw, u := FillRow(raw, cw, bs, u, n, e, 0);
    }
    cw, u := FillExtra(raw, cw, bs, u, c, d, n, a, k, ecPerBlock);
    for e := d to shortest
      invariant u == k * n + (n - a) + (e - d) * n && Filled(cw, bs, c, e, 1, 0)
    {
      CheckRow(raw, n, a, k, ecPerBlock, e);
      cw, u := FillRow(raw, cw, bs, u, c, e, 1);
    }
    AllFilled(cw, bs, a, k, ecPerBlock);
    r := Ok(seq(n, q requires 0 <= q < n => DataBlock(lengths[q], cw[q])));
  }

  /** The data lengths of all blocks, group by group. */
  function GroupLengths(groups: seq<BlockGroup>): seq<nat> {
    if groups == [] then []
    else seq(groups[0].count, _ => groups[0].dataCodewords) + GroupLengths(groups[1..])
  }

  function BlockLengths(n: nat, a: nat, k: nat): seq<nat> {
    seq(n, r requires 0 <= r < n => DataLength(a, k, r))
  }

  method NewBlocks(groups: seq<BlockGroup>, ecPerBlock: nat) returns (lengths: seq<nat>, cw: seq<seq<nat>>)
    ensures lengths == GroupLengths(groups) && |cw| == |lengths|
    ensures forall q :: 0 <= q < |cw| ==> |cw[q]| == lengths[q] + ecPerBlock
  {
    lengths, cw := [], [];
    for g := 0 to |groups|
      invariant lengths + GroupLengths(groups[g..]) == GroupLengths(groups) && |cw| == |lengths|
      invariant forall q :: 0 <= q < |cw| ==> |cw[q]| == lengths[q] + ecPerBlock
    {
      assert groups[g..][1..] == groups[g + 1..];
      lengths, cw := NewGroup(groups[g], ecPerBlock, lengths, cw);
    }
    assert groups[|groups|..] == [];
  }

  method NewGroup(group: BlockGroup, ecPerBlock: nat, lengths0: seq<nat>, cw0: seq<seq<nat>>)
    returns (lengths: seq<nat>, cw: seq<seq<nat>>)
    requires |cw0| == |lengths0| && forall q :: 0 <= q < |cw0| ==> |cw0[q]| == lengths0[q] + ecPerBlock
    ensures lengths == lengths0 + seq(group.count, _ => group.dataCodewords) && |cw| == |lengths|
    ensures forall q :: 0 <= q < |cw| ==> |cw[q]| == lengths[q] + ecPerBlock
  {
    lengths, cw := lengths0, cw0;
    for i := 0 to group.count
      invariant lengths == lengths0 + seq(i, _ => group.dataCodewords) && |cw| == |lengths|
      invariant forall q :: 0 <= q < |cw| ==> |cw[q]| == lengths[q] + ecPerBlock
    {
      lengths := lengths + [group.dataCodewords];
      cw := cw + [seq(group.dataCodewords + ecPerBlock, _ => 0)];
    }
  }

  /** The scan from the end for the last block as short as the first. */
  method LongerBlocksStartAt(cw: seq<seq<nat>>, lengths: seq<nat>, shortest: nat, ghost a: nat, ghost k: nat, ghost m: nat) returns (c: nat)
    requires |cw| == |lengths| && lengths == BlockLengths(|lengths|, a, k) && 0 < a <= |lengths|
    requires shortest == |cw[0]|
    requires forall q :: 0 <= q < |cw| ==> |cw[q]| == lengths[q] + m
    ensures c == a && shortest == k + m
  {
    var i := |cw| - 1;
    while i >= 0
      invariant a - 1 <= i < |cw|
      decreases i
    {
      if |cw[i]| == shortest {
        break;
      }
      i := i - 1;
    }
    c := i + 1;
  }

  lemma StartFilled(cw: seq<seq<nat>>, bs: seq<seq<nat>>, n: nat)
    requires |cw| == |bs| == n && forall q :: 0 <= q < n ==> |cw[q]| == |bs[q]|
    ensures Filled(cw, bs, n, 0, 0, 0)
  {
  }

  lemma DataRow(raw: seq<nat>, n: nat, a: nat, k: nat, m: nat, e: nat)
    requires 0 < a <= n && |raw| == k * n + (n - a) + m * n && e < k
    ensures e * n + n <= |raw| && (e + 1) * n == e * n + n
    ensures forall r :: 0 <= r < n ==>
              var b := TakenApart(raw, n, a, k, m)[r];
              Limit(n, e, 0, 0, r) < |b| && b[Limit(n, e, 0, 0, r)] == raw[e * n + r]
  {
    IndexOrder(e, n - 1, n, k);
    OneMore(e, n);
    forall r | 0 <= r < n
      ensures var b := TakenApart(raw, n, a, k, m)[r];
              Limit(n, e, 0, 0, r) < |b| && b[Limit(n, e, 0, 0, r)] == raw[e * n + r]
    {
      SourceInRange(n, a, k, m, r, e);
    }
  }

  lemma CheckRow(raw: seq<nat>, n: nat, a: nat, k: nat, m: nat, e: nat)
    requires 0 < a <= n && |raw| == k * n + (n - a) + m * n && k <= e < k + m
    ensures var u := k * n + (n - a) + (e - k) * n;
            u + n <= |raw| && u + n == k * n + (n - a) + (e + 1 - k) * n
    ensures forall r :: 0 <= r < n ==>
              var b := TakenApart(raw, n, a, k, m)[r];
              Limit(a, e, 1, 0, r) < |b| && b[Limit(a, e, 1, 0, r)] == raw[k * n + (n - a) + (e - k) * n + r]
  {
    IndexOrder(e - k, n - 1, n, m);
    OneMore(e - k, n);
    forall r | 0 <= r < n
      ensures var b := TakenApart(raw, n, a, k, m)[r];
              Limit(a, e, 1, 0, r) < |b| && b[Limit(a, e, 1, 0, r)] == raw[k * n + (n - a) + (e - k) * n + r]
    {
      SourceInRange(n, a, k, m, r, Limit(a, e, 1, 0, r));
    }
  }

  /** The extra data byte of the longer blocks. */
  method FillExtra(raw: seq<nat>, cw0: seq<seq<nat>>, ghost bs: seq<seq<nat>>, u0: nat, c: nat, d: nat, n: nat,
                   ghost a: nat, ghost k: nat, ghost m: nat) returns (cw: seq<seq<nat>>, u: nat)
    requires 0 < a <= n && |raw| == k * n + (n - a) + m * n && bs == TakenApart(raw, n, a, k, m)
    requires c == a && d == k && u0 == k * n && Filled(cw0, bs, n, d, 0, 0)
    ensures Filled(cw, bs, c, d, 1, 0) && u == k * n + (n - a)
  {
    hide BlockOf, SourceIndex;
    cw, u := cw0, u0;
    for e := c to n
      invariant u == k * n + (e - c)
      invariant |cw| == |bs|
      invariant forall q :: 0 <= q < n ==> FilledTo(cw[q], bs[q], if c <= q < e then d + 1 else d)
    {
      SourceInRange(n, a, k, m, e, k);
      ExtraEntry(raw, n, a, k, m, e);
      FillOne(cw[e], bs[e], d);
      cw := cw[e := cw[e][d := raw[u]]];
      u := u + 1;
    }
  }

  lemma ExtraEntry(raw: seq<nat>, n: nat, a: nat, k: nat, m: nat, e: nat)
    requires 0 < a <= e < n && |raw| == k * n + (n - a) + m * n
    ensures k * n + (e - a) < |raw| && k < |TakenApart(raw, n, a, k, m)[e]|
    ensures TakenApart(raw, n, a, k, m)[e][k] == raw[k * n + (e - a)]
  {
    SourceInRange(n, a, k, m, e, k);
  }

  lemma AllFilled(cw: seq<seq<nat>>, bs: seq<seq<nat>>, a: nat, k: nat, m: nat)
    requires Filled(cw, bs, a, k + m, 1, 0)
    requires forall q :: 0 <= q < |bs| ==> |bs[q]| == DataLength(a, k, q) + m
    ensures cw == bs
  {
    forall q | 0 <= q < |bs| ensures cw[q] == bs[q] {
      assert FilledTo(cw[q], bs[q], |bs[q]|);
      assert cw[q] == cw[q][..|bs[q]|] && bs[q] == bs[q][..|bs[q]|];
    }
  }
}
