/** A whole QR symbol: text to matrix, and a damaged matrix back to the text. Table data of the
    version (codeword counts, block groups, function pattern) is a parameter. */
module QrSymbol {
  import opened BinaryDigits
  import opened BitArray
  import opened BitSource
  import BitStream = BitSource
  import opened GaloisField
  import opened Polynomials
  import opened QrBlocks
  import opened QrPlacement
  import opened ReceivedWord
  import opened ReedSolomonEncoder
  import Text = QrText
  import TextDecoder = QrTextDecoder
  import RSDecoder = ReedSolomonDecoder
  import opened Wrappers

  datatype SymbolError = Stream(Text.StreamError) | Blocks(BlockError) | Placement(PlacementError) | Checksum | Format

  /** What the version and error correction level fix: all codewords, data bytes, blocks. */
  datatype Layout = Layout(version: nat, total: nat, data: nat, blocks: nat) {
    /** The encoder's size checks pass and every block is shorter than the field. */
    predicate Valid() {
      && blocks > 0 && data % blocks == total % blocks && 0 < data / blocks < total / blocks
      && total / blocks + 1 < 256
    }

    function Short(): nat
      requires Valid()
    {
      blocks - total % blocks
    }

    function ShortLength(): nat
      requires Valid()
    {
      data / blocks
    }

    function Checks(): (m: nat)
      requires Valid()
    {
      total / blocks - data / blocks
    }
  }

  lemma LayoutSums(l: Layout)
    requires l.Valid()
    ensures l.data <= l.total && 0 < l.Short() <= l.blocks
    ensures l.total == l.ShortLength() * l.blocks + (l.blocks - l.Short()) + l.Checks() * l.blocks
  {
    TotalSplit(l.total, l.data, l.blocks);
    assert l.Checks() * l.blocks >= 0;
    assert l.data == l.blocks * (l.data / l.blocks) + l.data % l.blocks;
  }

  /** The field of QR codewords with its generator base. */
  ghost predicate CodewordField(f: GenericGF) {
    ByteField(f) && f.generatorBase <= 1
  }

  lemma FieldFits(f: GenericGF, l: Layout)
    requires CodewordField(f) && l.Valid()
    ensures f.Lawful() && f.size == 256 && l.Checks() + f.generatorBase <= f.size
    ensures l.ShortLength() + 1 + l.Checks() < f.size
  {
    hide GenericGF.Lawful;
  }

  // ---------------------------------------------------------------- encoding

  /** The codewords of a symbol fill its total exactly. */
  lemma CodewordCount(f: GenericGF, l: Layout, bytes: seq<nat>, ds: seq<seq<nat>>, es: seq<seq<nat>>)
    requires l.Valid() && l.data <= l.total && |bytes| == l.data
    requires BlocksDone(f, bytes, l.total, l.blocks, l.blocks, ds, es)
    ensures |Interleaved(ds) + Interleaved(es)| == l.total
    ensures |ByteBits(Interleaved(ds) + Interleaved(es))| == 8 * l.total
  {
    hide BlocksDone, Interleaved, ByteBits;
    InterleavedTotal(f, bytes, l.total, l.blocks, ds, es);
    ByteBitsLength(Interleaved(ds) + Interleaved(es));
  }

  /** The matrix m holds the text, in the blocks ds with check bytes es, on top of the function pattern m0. */
  ghost predicate Encoded(f: GenericGF, l: Layout, text: string, mode: Text.Mode, mask: nat, m0: seq<seq<nat>>, m: seq<seq<nat>>,
                          ds: seq<seq<nat>>, es: seq<seq<nat>>)
    requires l.Valid() && mask < 8 && Square(m0)
  {
    && l.data <= l.total
    && Text.Picks(mode, text) && |text| < Pow2(Text.CountBits(mode, l.version))
    && |Text.HeaderBits(mode, text, l.version)| <= 8 * l.data
    && BlocksDone(f, DataBytes(mode, text, l), l.total, l.blocks, l.blocks, ds, es)
    && Placed(m0, m, ByteBits(Interleaved(ds) + Interleaved(es)), mask, Zigzag(|m0|, |m0| - 1, true))
  }

  /** The data bytes of a text. */
  function DataBytes(mode: Text.Mode, text: string, l: Layout): (bytes: seq<nat>)
    requires Text.Encodable(mode, text) && |Text.HeaderBits(mode, text, l.version)| <= 8 * l.data
    ensures |bytes| == l.data
  {
    Numbers(Packed(Text.Terminated(Text.HeaderBits(mode, text, l.version), l.data), l.data))
  }

  method EncodeSymbol(f: GenericGF, text: string, l: Layout, mask: nat, m: array2<nat>)
    returns (r: Result<(), SymbolError>, ghost mode: Text.Mode, ghost ds: seq<seq<nat>>, ghost es: seq<seq<nat>>)
    requires CodewordField(f) && l.Valid() && mask < 8
    requires m.Length0 == m.Length1
    modifies m
    ensures r.Ok? ==> Encoded(f, l, text, mode, mask, old(Rows(m)), Rows(m), ds, es)
    ensures r.Ok? <==>
              && (exists p :: Text.Picks(p, text) && |text| < Pow2(Text.CountBits(p, l.version)) &&
                              |Text.HeaderBits(p, text, l.version)| <= 8 * l.data)
              && 8 * l.total <= |FreeCells(m.Length0, Taken(old(Rows(m))))|
  {
    hide Placed, Zigzag, Taken, BlocksDone, ByteField, CleanTail, BitsOf, Text.HeaderBits, Text.Terminated, Packed,
      FreeOf, ByteBits, Interleaved, GenericGF.Lawful;
    ds, es := [], [];
    mode := Text.Byte;
    if p :| Text.Picks(p, text) {
      mode := p;
    }
    Text.OnePick(text);
    LayoutSums(l);
    var stream := Text.EncodeText(text, l.version, l.data);
    if stream.Err? {
      return Err(Stream(stream.error)), mode, ds, es;
    }
    FieldFits(f, l);
    var codewords;
    codewords, ds, es := InterleaveWithECBytes(f, stream.value, l.total, l.data, l.blocks);
    match codewords {
      case Err(e) =>
        return Err(Blocks(e)), mode, ds, es;
      case Ok(_) =>
    }
    CodewordCount(f, l, DataBytes(mode, text, l), ds, es);
    var placed := EmbedDataBits(codewords.value, mask, m);
    if placed.Err? {
      return Err(Placement(placed.error)), mode, ds, es;
    }
    return Ok(()), mode, ds, es;
  }

  // ---------------------------------------------------------------- decoding

  /** Storing numbers into a byte buffer. */
  function AsBytes(s: seq<nat>): (b: seq<bv8>)
    ensures |b| == |s|
  {
    seq(|s|, i requires 0 <= i < |s| => Truncated(s[i]))
  }

  function Truncated(v: nat): bv8 {
    ByteOf(v % 256)
  }

  function ByteOf(v: nat): bv8
    requires v < 256
  {
    v as bv8
  }

  lemma ByteOfByte(b: bv8)
    ensures (b as nat) < 256 && ByteOf(b as nat) == b
  {
  }

  lemma TruncatedByte(b: bv8)
    ensures Truncated(b as nat) == b
  {
    hide ByteOf;
    ByteOfByte(b);
    SmallModulo(b as nat);
  }

  lemma SmallModulo(v: nat)
    requires v < 256
    ensures v % 256 == v
  {
  }

  lemma BytesRoundTrip(b: seq<bv8>)
    ensures AsBytes(Numbers(b)) == b
  {
    hide Truncated;
    forall i | 0 <= i < |b| ensures AsBytes(Numbers(b))[i] == b[i] {
      TruncatedByte(b[i]);
    }
  }

  /** The blocks one after another. */
  function Joining(ds: seq<seq<nat>>): seq<nat> {
    if ds == [] then [] else Joining(ds[..|ds| - 1]) + ds[|ds| - 1]
  }

  /** Block r of the raw codewords of a symbol. */
  function RawBlock(l: Layout, raw: seq<nat>, r: nat): (b: seq<nat>)
    requires l.Valid() && |raw| == l.total && r < l.blocks
    ensures |b| == DataLength(l.Short(), l.ShortLength(), r) + l.Checks()
  {
    LayoutSums(l);
    BlockOf(raw, l.blocks, l.Short(), l.ShortLength(), l.Checks(), r)
  }

  /** The raw codewords are within the correction bound of these blocks, each of them a codeword. */
  ghost predicate Near(f: GenericGF, l: Layout, raw: seq<nat>, ds: seq<seq<nat>>, es: seq<seq<nat>>)
    requires l.Valid()
  {
    && |raw| == l.total && |ds| == |es| == l.blocks
    && forall r :: 0 <= r < l.blocks ==> NearBlock(f, l, RawBlock(l, raw, r), ds[r], es[r], r)
  }

  ghost predicate NearBlock(f: GenericGF, l: Layout, w: seq<nat>, d: seq<nat>, e: seq<nat>, r: nat)
    requires l.Valid()
  {
    && |d| == DataLength(l.Short(), l.ShortLength(), r) && |e| == l.Checks()
    && RSDecoder.Correctable(f, d + e, w, l.Checks())
  }

  /** What an accepted word w is turned into: v differs from it in few places, and is a codeword if and only if one was
      within reach, or else the solution of the key equation shows that it is none. */
  ghost predicate Accepted(f: GenericGF, w: seq<nat>, v: seq<nat>, r: nat) {
    && |v| == |w| && Distance(w, v) <= r - r / 2
    && (f.generatorBase <= 1 && r % 2 == 0 && |w| < f.size ==> (IsCodeword(f, v, r) <==> RSDecoder.Reachable(f, w, r)))
    && exists sigma, omega :: RSDecoder.KeyPair(f, w, r, sigma, omega) &&
         (f.generatorBase <= 1 ==> (IsCodeword(f, v, r) <==> |omega| < |sigma|))
  }

  /** Corrects the data part of one block in place; the check bytes stay as received. A block that is not accepted is left
      as it is. */
  method CorrectErrors(f: GenericGF, codewords: array<nat>, numData: nat) returns (r: Result<(), SymbolError>, ghost fixed: seq<nat>)
    requires f.Lawful() && Below(f.size, codewords[..]) && numData <= codewords.Length
    requires codewords.Length - numData + f.generatorBase <= f.size
    modifies codewords
    ensures forall c :: RSDecoder.Correctable(f, c, old(codewords[..]), codewords.Length - numData) ==>
              r.Ok? && codewords[..numData] == c[..numData]
    ensures codewords[numData..] == old(codewords[numData..])
    ensures r.Ok? ==> Accepted(f, old(codewords[..]), fixed, codewords.Length - numData) && codewords[..numData] == fixed[..numData]
    ensures r.Err? ==> r == Err(Checksum) && codewords[..] == old(codewords[..]) &&
                       !RSDecoder.Reachable(f, old(codewords[..]), codewords.Length - numData)
  {
    hide RSDecoder.Correctable, GenericGF.Lawful, IsCodeword, RSDecoder.KeyPair, Distance;
    ghost var w, checks := codewords[..], codewords.Length - numData;
    var copy := new nat[codewords.Length](i requires 0 <= i < codewords.Length reads codewords => codewords[i]);
    assert copy[..] == w;
    ghost var sigma, omega;
    var decoded;
    decoded, sigma, omega := RSDecoder.Decode(f, copy, codewords.Length - numData);
    fixed := copy[..];
    if decoded.Err? {
      return Err(Checksum), fixed;
    }
    assert RSDecoder.KeyPair(f, w, checks, sigma, omega);
    for n := 0 to numData
      invariant copy[..] == fixed
      invariant codewords[..n] == fixed[..n] && codewords[n..] == w[n..]
    {
      codewords[n] := copy[n];
    }
    return Ok(()), fixed;
  }

  /** Corrects one block and stores its data bytes. */
  method CorrectBlock(f: GenericGF, l: Layout, block: DataBlock, q: nat) returns (r: Result<seq<bv8>, SymbolError>, ghost fixed: seq<nat>)
    requires CodewordField(f) && l.Valid() && q < l.blocks
    requires block.numDataCodewords == DataLength(l.Short(), l.ShortLength(), q) && Below(256, block.codewords)
    requires |block.codewords| == block.numDataCodewords + l.Checks()
    ensures forall d, e :: NearBlock(f, l, block.codewords, d, e, q) ==> r == Ok(AsBytes(d))
    ensures r.Ok? ==> Accepted(f, block.codewords, fixed, l.Checks()) && r.value == AsBytes(fixed[..block.numDataCodewords])
    ensures r.Err? ==> r == Err(Checksum) && !RSDecoder.Reachable(f, block.codewords, l.Checks())
  {
    hide GenericGF.Lawful, NearBlock, Truncated, AsBytes, Accepted, RSDecoder.Reachable;
    FieldFits(f, l);
    LayoutSums(l);
    var words := block.codewords;
    var codewords := new nat[|words|](i requires 0 <= i < |words| => words[i]);
    assert codewords[..] == words;
    var result;
    result, fixed := CorrectErrors(f, codewords, block.numDataCodewords);
    forall d, e | NearBlock(f, l, words, d, e, q)
      ensures result.Ok? && codewords[..block.numDataCodewords] == d
    {
      OneBlock(f, l, words, d, e, q);
    }
    if result.Err? {
      return Err(result.error), fixed;
    }
    return Ok(AsBytes(codewords[..block.numDataCodewords])), fixed;
  }

  /** The data parts of corrected blocks. */
  ghost function DataParts(l: Layout, vs: seq<seq<nat>>): (ds: seq<seq<nat>>)
    requires l.Valid()
    ensures |ds| == |vs|
  {
    seq(|vs|, q requires 0 <= q < |vs| =>
      var n := DataLength(l.Short(), l.ShortLength(), q);
      if n <= |vs[q]| then vs[q][..n] else [])
  }

  /** The first k blocks of the raw codewords are accepted as vs. */
  ghost predicate BlocksAccepted(f: GenericGF, l: Layout, raw: seq<nat>, vs: seq<seq<nat>>, k: nat)
    requires l.Valid()
  {
    |raw| == l.total && |vs| == k <= l.blocks && forall q :: 0 <= q < k ==> Accepted(f, RawBlock(l, raw, q), vs[q], l.Checks())
  }

  /** Some block of the raw codewords has no codeword within reach. */
  ghost predicate BlockLost(f: GenericGF, l: Layout, raw: seq<nat>)
    requires l.Valid()
  {
    |raw| == l.total && exists q: nat :: q < l.blocks && !RSDecoder.Reachable(f, RawBlock(l, raw, q), l.Checks())
  }

  /** Corrects every block and collects the data bytes. */
  method CorrectBlocks(f: GenericGF, l: Layout, ghost raw: seq<nat>, blocks: seq<DataBlock>)
    returns (r: Result<seq<bv8>, SymbolError>, ghost vs: seq<seq<nat>>)
    requires CodewordField(f) && l.Valid() && |raw| == l.total && Below(256, raw)
    requires |blocks| == l.blocks
    requires forall q :: 0 <= q < l.blocks ==>
               blocks[q] == DataBlock(DataLength(l.Short(), l.ShortLength(), q), RawBlock(l, raw, q))
    ensures forall ds, es :: Near(f, l, raw, ds, es) ==> r == Ok(AsBytes(Joining(ds)))
    ensures r.Ok? ==> BlocksAccepted(f, l, raw, vs, l.blocks) && r.value == AsBytes(Joining(DataParts(l, vs)))
    ensures r.Err? ==> r == Err(Checksum) && BlockLost(f, l, raw)
  {
    hide GenericGF.Lawful, RawBlock, NearBlock, DataLength, AsBytes, Accepted, RSDecoder.Reachable, Near, Joining, Collected,
      DataParts, BlocksAccepted;
    var bytes: seq<bv8> := [];
    vs := [];
    NothingCollected(f, l, raw);
    for q := 0 to l.blocks
      invariant Collected(f, l, raw, bytes, q)
      invariant |vs| == q && BlocksAccepted(f, l, raw, vs, q) && bytes == AsBytes(Joining(DataParts(l, vs)))
    {
      BlockBelow(l, raw, q);
      var corrected;
      ghost var fixed;
      corrected, fixed := CorrectBlock(f, l, blocks[q], q);
      forall ds, es | Near(f, l, raw, ds, es) ensures corrected.Ok? {
        NearAt(f, l, raw, ds, es, q);
      }
      if corrected.Err? {
        return Err(corrected.error), vs;
      }
      CollectOne(f, l, raw, bytes, q, corrected.value);
      OnePartMore(f, l, raw, vs, fixed, q);
      BytesAppend(Joining(DataParts(l, vs)), fixed[..DataLength(l.Short(), l.ShortLength(), q)]);
      bytes := bytes + corrected.value;
      vs := vs + [fixed];
    }
    AllCollected(f, l, raw, bytes);
    return Ok(bytes), vs;
  }

  /** The bytes are those of the first q blocks of whatever encoding is near. */
  ghost predicate Collected(f: GenericGF, l: Layout, raw: seq<nat>, bytes: seq<bv8>, q: nat)
    requires l.Valid() && q <= l.blocks
  {
    forall ds, es :: Near(f, l, raw, ds, es) ==> bytes == AsBytes(Joining(ds[..q]))
  }

  lemma NothingCollected(f: GenericGF, l: Layout, raw: seq<nat>)
    requires l.Valid() && |raw| == l.total
    ensures Collected(f, l, raw, [], 0) && BlocksAccepted(f, l, raw, [], 0) && AsBytes(Joining(DataParts(l, []))) == []
  {
    hide Accepted, RawBlock;
    assert DataParts(l, []) == [];
    assert Joining([]) == [];
  }

  lemma CollectOne(f: GenericGF, l: Layout, raw: seq<nat>, bytes: seq<bv8>, q: nat, more: seq<bv8>)
    requires l.Valid() && |raw| == l.total && q < l.blocks && Collected(f, l, raw, bytes, q)
    requires forall d, e :: NearBlock(f, l, RawBlock(l, raw, q), d, e, q) ==> more == AsBytes(d)
    ensures Collected(f, l, raw, bytes + more, q + 1)
  {
    hide RawBlock, NearBlock, AsBytes;
    forall ds, es | Near(f, l, raw, ds, es) ensures bytes + more == AsBytes(Joining(ds[..q + 1])) {
      NearAt(f, l, raw, ds, es, q);
      JoiningOneMore(ds, q);
      BytesAppend(Joining(ds[..q]), ds[q]);
    }
  }

  lemma NearAt(f: GenericGF, l: Layout, raw: seq<nat>, ds: seq<seq<nat>>, es: seq<seq<nat>>, q: nat)
    requires l.Valid() && Near(f, l, raw, ds, es) && q < l.blocks
    ensures |raw| == l.total && |ds| == |es| == l.blocks && NearBlock(f, l, RawBlock(l, raw, q), ds[q], es[q], q)
  {
    hide RawBlock, NearBlock;
  }

  lemma AllCollected(f: GenericGF, l: Layout, raw: seq<nat>, bytes: seq<bv8>)
    requires l.Valid() && Collected(f, l, raw, bytes, l.blocks)
    ensures forall ds, es :: Near(f, l, raw, ds, es) ==> bytes == AsBytes(Joining(ds))
  {
    hide RawBlock, NearBlock, AsBytes, Joining;
    forall ds, es | Near(f, l, raw, ds, es) ensures bytes == AsBytes(Joining(ds)) {
      assert ds[..l.blocks] == ds;
    }
  }

  lemma OnePartMore(f: GenericGF, l: Layout, raw: seq<nat>, vs: seq<seq<nat>>, v: seq<nat>, q: nat)
    requires l.Valid() && |raw| == l.total && |vs| == q < l.blocks
    requires BlocksAccepted(f, l, raw, vs, q) && Accepted(f, RawBlock(l, raw, q), v, l.Checks())
    ensures BlocksAccepted(f, l, raw, vs + [v], q + 1)
    ensures DataLength(l.Short(), l.ShortLength(), q) <= |v|
    ensures Joining(DataParts(l, vs + [v])) == Joining(DataParts(l, vs)) + v[..DataLength(l.Short(), l.ShortLength(), q)]
  {
    hide DataLength, RawBlock, Joining, DataParts;
    SameSize(f, RawBlock(l, raw, q), v, l.Checks());
    hide Accepted;
    PartsPush(l, vs, v);
    var parts := DataParts(l, vs);
    JoiningPush(parts, v[..DataLength(l.Short(), l.ShortLength(), q)]);
  }

  lemma SameSize(f: GenericGF, w: seq<nat>, v: seq<nat>, r: nat)
    requires Accepted(f, w, v, r)
    ensures |v| == |w|
  {
  }

  lemma PartsPush(l: Layout, vs: seq<seq<nat>>, v: seq<nat>)
    requires l.Valid() && DataLength(l.Short(), l.ShortLength(), |vs|) <= |v|
    ensures DataParts(l, vs + [v]) == DataParts(l, vs) + [v[..DataLength(l.Short(), l.ShortLength(), |vs|)]]
  {
    hide DataLength;
  }

  lemma JoiningPush(ds: seq<seq<nat>>, d: seq<nat>)
    ensures Joining(ds + [d]) == Joining(ds) + d
  {
    assert (ds + [d])[..|ds|] == ds;
  }

  lemma BytesAppend(a: seq<nat>, b: seq<nat>)
    ensures AsBytes(a + b) == AsBytes(a) + AsBytes(b)
  {
    hide Truncated;
  }

  lemma BlockBelow(l: Layout, raw: seq<nat>, r: nat)
    requires l.Valid() && |raw| == l.total && Below(256, raw) && r < l.blocks
    ensures Below(256, RawBlock(l, raw, r))
  {
    LayoutSums(l);
    hide SourceIndex;
    forall j | 0 <= j < DataLength(l.Short(), l.ShortLength(), r) + l.Checks()
      ensures RawBlock(l, raw, r)[j] < 256
    {
      SourceInRange(l.blocks, l.Short(), l.ShortLength(), l.Checks(), r, j);
    }
  }

  lemma OneBlock(f: GenericGF, l: Layout, w: seq<nat>, d: seq<nat>, e: seq<nat>, r: nat)
    requires l.Valid() && NearBlock(f, l, w, d, e, r)
    ensures RSDecoder.Correctable(f, d + e, w, l.Checks())
    ensures (d + e)[..DataLength(l.Short(), l.ShortLength(), r)] == d
  {
  }

  // ---------------------------------------------------------------- from damaged modules to damaged blocks

  /** The entries of block r of which some module is damaged. */
  ghost function DamagedEntries(l: Layout, m0: seq<seq<nat>>, m: seq<seq<nat>>, shown: seq<seq<bool>>, r: nat): set<int>
    requires l.Valid() && r < l.blocks && Square(m0) && Square(m) && SquareBits(shown)
  {
    LayoutSums(l);
    set j | 0 <= j < DataLength(l.Short(), l.ShortLength(), r) + l.Checks() &&
            !CodewordUndamaged(m0, m, shown, SourceIndex(l.blocks, l.Short(), l.ShortLength(), r, j))
  }

  /** No block has more damaged codewords than half its check bytes. */
  ghost predicate LightlyDamaged(l: Layout, m0: seq<seq<nat>>, m: seq<seq<nat>>, shown: seq<seq<bool>>)
    requires l.Valid() && Square(m0) && Square(m) && SquareBits(shown)
  {
    forall r :: 0 <= r < l.blocks ==> |DamagedEntries(l, m0, m, shown, r)| <= l.Checks() / 2
  }

  /** The blocks taken out of the codewords as encoded. */
  lemma EncodedBlock(f: GenericGF, l: Layout, bytes: seq<nat>, ds: seq<seq<nat>>, es: seq<seq<nat>>, r: nat)
    requires l.Valid() && l.data <= l.total && |bytes| == l.data && r < l.blocks
    requires BlocksDone(f, bytes, l.total, l.blocks, l.blocks, ds, es)
    ensures |Interleaved(ds) + Interleaved(es)| == l.total
    ensures RawBlock(l, Interleaved(ds) + Interleaved(es), r) == ds[r] + es[r]
    ensures |ds[r]| == DataLength(l.Short(), l.ShortLength(), r) && |es[r]| == l.Checks()
    ensures IsCodeword(f, ds[r] + es[r], l.Checks())
  {
    hide Interleaved, IsCodeword, BlockOf;
    CodewordCount(f, l, bytes, ds, es);
    BlocksShaped(f, bytes, l.total, l.blocks, ds, es);
    LayoutSums(l);
    InterleaveRoundTrip(ds, es, l.Short(), l.ShortLength(), l.Checks());
  }

  /** Entry j of a raw block. */
  lemma RawEntry(l: Layout, raw: seq<nat>, r: nat, j: nat)
    requires l.Valid() && |raw| == l.total && r < l.blocks && j < |RawBlock(l, raw, r)|
    ensures var i := (LayoutSums(l); SourceIndex(l.blocks, l.Short(), l.ShortLength(), r, j));
            i < l.total && RawBlock(l, raw, r)[j] == raw[i]
  {
    hide SourceIndex;
    LayoutSums(l);
    SourceInRange(l.blocks, l.Short(), l.ShortLength(), l.Checks(), r, j);
  }

  /** A block read from a damaged matrix differs from the block encoded in it only in damaged entries. */
  lemma BlockDistance(f: GenericGF, l: Layout, bytes: seq<nat>, mask: nat, m0: seq<seq<nat>>, m: seq<seq<nat>>,
                      shown: seq<seq<bool>>, ds: seq<seq<nat>>, es: seq<seq<nat>>, r: nat)
    requires l.Valid() && l.data <= l.total && |bytes| == l.data && r < l.blocks && mask < 8
    requires Square(m0) && Square(m) && SquareBits(shown)
    requires CodewordField(f) && BlocksDone(f, bytes, l.total, l.blocks, l.blocks, ds, es)
    requires Placed(m0, m, ByteBits(Interleaved(ds) + Interleaved(es)), mask, Zigzag(|m0|, |m0| - 1, true))
    requires |FreeCells(|m0|, Taken(m0))| / 8 == l.total
    ensures var raw := Octets(ReadBits(shown, mask, FreeCells(|m0|, Taken(m0))));
            && |ds| == |es| == l.blocks && |ds[r] + es[r]| == |RawBlock(l, raw, r)|
            && Distance(ds[r] + es[r], RawBlock(l, raw, r)) <= |DamagedEntries(l, m0, m, shown, r)|
  {
    hide IsCodeword, Placed, Zigzag, Taken, FreeOf, FreeCells, Interleaved, ByteBits, BlockOf, CodewordUndamaged, ReadBits, Octets,
      BlocksDone, GenericGF.Lawful, SourceIndex, RawBlock;
    var raw := Octets(ReadBits(shown, mask, FreeCells(|m0|, Taken(m0))));
    var codewords := Interleaved(ds) + Interleaved(es);
    EncodedBlock(f, l, bytes, ds, es, r);
    BlocksShaped(f, bytes, l.total, l.blocks, ds, es);
    CodewordsBelow(f, l, bytes, ds, es);
    LayoutSums(l);
    var c, w := ds[r] + es[r], RawBlock(l, raw, r);
    var differ := set p | 0 <= p < |c| && c[p] != w[p];
    forall p | p in differ ensures p in DamagedEntries(l, m0, m, shown, r) {
      RawEntry(l, raw, r, p);
      RawEntry(l, codewords, r, p);
      var i := SourceIndex(l.blocks, l.Short(), l.ShortLength(), r, p);
      if CodewordUndamaged(m0, m, shown, i) {
        CodewordRoundTrip(m0, m, shown, codewords, mask, i);
      }
    }
    RSDecoder.SmallerSet(differ, DamagedEntries(l, m0, m, shown, r));
  }

  /** Every codeword is a byte. */
  lemma CodewordsBelow(f: GenericGF, l: Layout, bytes: seq<nat>, ds: seq<seq<nat>>, es: seq<seq<nat>>)
    requires l.Valid() && l.data <= l.total && |bytes| == l.data
    requires CodewordField(f) && BlocksDone(f, bytes, l.total, l.blocks, l.blocks, ds, es)
    ensures Below(256, Interleaved(ds) + Interleaved(es))
  {
    hide GenericGF.Lawful;
    BlocksShaped(f, bytes, l.total, l.blocks, ds, es);
    forall r | 0 <= r < l.blocks ensures Below(256, ds[r]) && Below(256, es[r]) {
      assert IsCodeword(f, ds[r] + es[r], l.Checks());
      BelowParts(ds[r], es[r]);
    }
    ColumnsBelow(ds, MaxLength(ds));
    ColumnsBelow(es, MaxLength(es));
  }

  lemma BelowParts(d: seq<nat>, e: seq<nat>)
    requires Below(256, d + e)
    ensures Below(256, d) && Below(256, e)
  {
    assert d == (d + e)[..|d|] && e == (d + e)[|d|..];
  }

  lemma {:induction false} ColumnsBelow(bs: seq<seq<nat>>, t: nat)
    requires forall r :: 0 <= r < |bs| ==> Below(256, bs[r])
    ensures Below(256, Columns(bs, t))
    decreases t
  {
    if t > 0 {
      ColumnsBelow(bs, t - 1);
      ColumnBelow(bs, t - 1);
    }
  }

  lemma {:induction false} ColumnBelow(bs: seq<seq<nat>>, t: nat)
    requires forall r :: 0 <= r < |bs| ==> Below(256, bs[r])
    ensures Below(256, Column(bs, t))
    decreases |bs|
  {
    if bs != [] {
      ColumnBelow(bs[1..], t);
    }
  }

  /** The data slices in order are the data bytes. */
  lemma {:induction false} JoiningSlices(f: GenericGF, l: Layout, bytes: seq<nat>, ds: seq<seq<nat>>, es: seq<seq<nat>>, k: nat)
    requires l.Valid() && l.data <= l.total && |bytes| == l.data && k <= l.blocks
    requires BlocksDone(f, bytes, l.total, l.blocks, l.blocks, ds, es)
    ensures l.blocks > 0 && |ds| == l.blocks && DataBefore(l.total, l.data, l.blocks, k) <= l.data
    ensures Joining(ds[..k]) == bytes[..DataBefore(l.total, l.data, l.blocks, k)]
    decreases k
  {
    assert l.blocks > 0 && |ds| == l.blocks;
    hide BlocksDone, DataLength, Layout.Valid;
    if k > 0 {
      JoiningSlices(f, l, bytes, ds, es, k - 1);
      JoiningOneMore(ds, k - 1);
      var size := BlockSlice(f, l, bytes, ds, es, k - 1);
      SliceExtends(bytes, DataBefore(l.total, l.data, l.blocks, k - 1), size);
    }
  }

  lemma JoiningOneMore(ds: seq<seq<nat>>, k: nat)
    requires k < |ds|
    ensures Joining(ds[..k + 1]) == Joining(ds[..k]) + ds[k]
  {
    assert ds[..k + 1][..k] == ds[..k];
  }

  lemma SliceExtends(bytes: seq<nat>, from: nat, size: nat)
    requires from + size <= |bytes|
    ensures bytes[..from] + bytes[from..][..size] == bytes[..from + size]
  {
  }

  lemma BlockSlice(f: GenericGF, l: Layout, bytes: seq<nat>, ds: seq<seq<nat>>, es: seq<seq<nat>>, r: nat) returns (size: nat)
    requires l.Valid() && l.data <= l.total && |bytes| == l.data && r < l.blocks
    requires BlocksDone(f, bytes, l.total, l.blocks, l.blocks, ds, es)
    ensures l.blocks > 0 && |ds| == l.blocks
    ensures DataBefore(l.total, l.data, l.blocks, r + 1) == DataBefore(l.total, l.data, l.blocks, r) + size <= l.data
    ensures ds[r] == bytes[DataBefore(l.total, l.data, l.blocks, r)..][..size]
  {
    hide IsCodeword, DataLength;
    size := DataLength(l.blocks - l.total % l.blocks, l.data / l.blocks, r);
  }

  /** The main result: reading back a matrix in which no block lost more codewords than half its check bytes. */
  lemma SymbolRoundTrip(f: GenericGF, l: Layout, text: string, mode: Text.Mode, mask: nat, m0: seq<seq<nat>>, m: seq<seq<nat>>,
                        shown: seq<seq<bool>>, ds: seq<seq<nat>>, es: seq<seq<nat>>)
    requires CodewordField(f) && l.Valid() && mask < 8 && Square(m0) && Square(m) && SquareBits(shown)
    requires Encoded(f, l, text, mode, mask, m0, m, ds, es)
    requires |FreeCells(|m0|, Taken(m0))| / 8 == l.total && LightlyDamaged(l, m0, m, shown)
    ensures Near(f, l, Octets(ReadBits(shown, mask, FreeCells(|m0|, Taken(m0)))), ds, es)
    ensures TextDecoder.StreamText(BitStream.Stream(AsBytes(Joining(ds))), 0, l.version) == Some(text)
  {
    hide IsCodeword, Placed, Zigzag, Taken, FreeOf, FreeCells, Interleaved, ByteBits, RawBlock, DamagedEntries, ReadBits, Octets,
      BlocksDone, GenericGF.Lawful, Distance, Text.HeaderBits, Text.Terminated, Packed, TextDecoder.StreamText, DataLength;
    var raw := Octets(ReadBits(shown, mask, FreeCells(|m0|, Taken(m0))));
    var bytes := DataBytes(mode, text, l);
    FieldFits(f, l);
    BlocksShaped(f, bytes, l.total, l.blocks, ds, es);
    forall r | 0 <= r < l.blocks ensures NearBlock(f, l, RawBlock(l, raw, r), ds[r], es[r], r) {
      EncodedBlock(f, l, bytes, ds, es, r);
      BlockDistance(f, l, bytes, mask, m0, m, shown, ds, es, r);
      DataLengthBound(l, r);
    }
    JoiningSlices(f, l, bytes, ds, es, l.blocks);
    SizesAddUp(l.total, l.data, l.blocks);
    assert ds[..l.blocks] == ds && bytes[..l.data] == bytes;
    BytesRoundTrip(Packed(Text.Terminated(Text.HeaderBits(mode, text, l.version), l.data), l.data));
    TextDecoder.PackedTextRoundTrip(mode, text, l.version, l.data);
  }

  lemma DataLengthBound(l: Layout, r: nat)
    requires l.Valid()
    ensures DataLength(l.Short(), l.ShortLength(), r) <= l.ShortLength() + 1
  {
  }

  lemma {:induction false} OctetsBelow(s: seq<bool>)
    ensures Below(256, Octets(s))
    decreases |s|
  {
    hide Number;
    if |s| >= 8 {
      OctetsBelow(s[8..]);
      NumberBound(s[..8]);
      Pow2Is256();
    }
  }

  /** The matrix shows an encoding of the text under this mask and function pattern, damaged within the bound. */
  ghost predicate ShowsText(f: GenericGF, l: Layout, mask: nat, shown: seq<seq<bool>>, taken: set<Cell>, text: string)
    requires l.Valid() && mask < 8 && SquareBits(shown)
  {
    exists mode, m0, m, ds, es :: Square(m0) && Square(m) && Encoded(f, l, text, mode, mask, m0, m, ds, es) &&
      ShowsEncoding(l, m0, m, shown, taken)
  }

  ghost predicate ShowsEncoding(l: Layout, m0: seq<seq<nat>>, m: seq<seq<nat>>, shown: seq<seq<bool>>, taken: set<Cell>)
    requires l.Valid() && Square(m0) && Square(m) && SquareBits(shown)
  {
    && |m0| == |shown| && Taken(m0) == taken && |FreeCells(|m0|, taken)| / 8 == l.total
    && LightlyDamaged(l, m0, m, shown)
  }

  ghost predicate Recoverable(f: GenericGF, l: Layout, raw: seq<nat>, text: string)
    requires l.Valid()
  {
    exists ds, es :: Near(f, l, raw, ds, es) &&
      TextDecoder.StreamText(BitStream.Stream(AsBytes(Joining(ds))), 0, l.version) == Some(text)
  }

  lemma ShownIsRecoverable(f: GenericGF, l: Layout, mask: nat, shown: seq<seq<bool>>, taken: set<Cell>, text: string)
    requires CodewordField(f) && l.Valid() && mask < 8 && SquareBits(shown) && ShowsText(f, l, mask, shown, taken, text)
    ensures Recoverable(f, l, Octets(ReadBits(shown, mask, FreeCells(|shown|, taken))), text)
  {
    hide Encoded, Near, LightlyDamaged, CodewordField, FreeCells, Taken;
    var mode, m0, m, ds, es :| Square(m0) && Square(m) && Encoded(f, l, text, mode, mask, m0, m, ds, es) &&
      ShowsEncoding(l, m0, m, shown, taken);
    SymbolRoundTrip(f, l, text, mode, mask, m0, m, shown, ds, es);
  }

  lemma RecoverableLength(f: GenericGF, l: Layout, raw: seq<nat>, text: string)
    requires l.Valid() && Recoverable(f, l, raw, text)
    ensures |raw| == l.total
  {
  }

  /** What the correction loop makes of recoverable codewords. */
  lemma RecoveredBytes(f: GenericGF, l: Layout, raw: seq<nat>, text: string, bytes: Result<seq<bv8>, SymbolError>)
    requires l.Valid() && Recoverable(f, l, raw, text)
    requires forall ds, es :: Near(f, l, raw, ds, es) ==> bytes == Ok(AsBytes(Joining(ds)))
    ensures bytes.Ok? && TextDecoder.StreamText(BitStream.Stream(bytes.value), 0, l.version) == Some(text)
  {
    hide Near, TextDecoder.StreamText;
  }

  lemma TakenIsRaw(l: Layout, raw: seq<nat>, r: nat)
    requires l.Valid() && |raw| == l.total && r < l.blocks
    ensures l.Short() <= l.blocks
    ensures |raw| == l.ShortLength() * l.blocks + (l.blocks - l.Short()) + l.Checks() * l.blocks
    ensures TakenApart(raw, l.blocks, l.Short(), l.ShortLength(), l.Checks())[r] == RawBlock(l, raw, r)
  {
    LayoutSums(l);
  }

  lemma GroupCount(l: Layout, groups: seq<BlockGroup>)
    requires l.Valid() && GroupLengths(groups) == BlockLengths(l.blocks, l.Short(), l.ShortLength())
    ensures |GroupLengths(groups)| == l.blocks
  {
  }

  /** Reads the text out of a matrix: codewords, blocks, correction, segments. */
  method DecodeSymbol(f: GenericGF, l: Layout, groups: seq<BlockGroup>, mask: nat, m: array2<bool>, pattern: array2<bool>)
    returns (r: Result<string, SymbolError>, ghost vs: seq<seq<nat>>)
    requires CodewordField(f) && l.Valid() && mask < 8 && m != pattern
    requires GroupLengths(groups) == BlockLengths(l.blocks, l.Short(), l.ShortLength())
    requires m.Length0 == m.Length1 == pattern.Length0 == pattern.Length1
    modifies m
    ensures forall text :: ShowsText(f, l, mask, old(BitRows(m)), PatternCells(pattern), text) ==> r == Ok(text)
    ensures var raw := Octets(ReadBits(old(BitRows(m)), mask, FreeCells(m.Length0, PatternCells(pattern))));
            match r
            case Ok(text) =>
              && BlocksAccepted(f, l, raw, vs, l.blocks)
              && TextDecoder.StreamText(BitStream.Stream(AsBytes(Joining(DataParts(l, vs)))), 0, l.version) == Some(text)
            case Err(Format) =>
              && BlocksAccepted(f, l, raw, vs, l.blocks)
              && TextDecoder.StreamText(BitStream.Stream(AsBytes(Joining(DataParts(l, vs)))), 0, l.version) == None
            case Err(Checksum) => BlockLost(f, l, raw)
            case Err(_) => |raw| != l.total && r == Err(Placement(WrongCodewordCount))
  {
    hide ShowsText, Recoverable, Near, BitRows, PatternCells, FreeCells, ReadBits, Octets, CodewordField, TakenApart, RawBlock,
      TextDecoder.StreamText, IsMasked, GroupLengths, BlockLengths,
      BlocksAccepted, BlockLost, DataParts, AsBytes;
    vs := [];
    ghost var shown, taken := BitRows(m), PatternCells(pattern);
    LayoutSums(l);
    GroupCount(l, groups);
    ghost var all := Octets(ReadBits(shown, mask, FreeCells(m.Length0, taken)));
    forall text | ShowsText(f, l, mask, shown, taken, text) ensures Recoverable(f, l, all, text) && |all| == l.total {
      ShownIsRecoverable(f, l, mask, shown, taken, text);
      RecoverableLength(f, l, all, text);
    }
    var read := ReadCodewords(m, pattern, mask, l.total);
    if read.Err? {
      return Err(Placement(read.error)), vs;
    }
    var raw := read.value;
    OctetsBelow(ReadBits(shown, mask, FreeCells(m.Length0, taken)));
    var blocks := GetDataBlocks(raw, l.total, groups, l.Checks(), l.Short(), l.ShortLength());
    forall q | 0 <= q < l.blocks
      ensures blocks.value[q] == DataBlock(DataLength(l.Short(), l.ShortLength(), q), RawBlock(l, raw, q))
    {
      TakenIsRaw(l, raw, q);
    }
    var bytes;
    bytes, vs := CorrectBlocks(f, l, raw, blocks.value);
    forall text | ShowsText(f, l, mask, shown, taken, text)
      ensures bytes.Ok? && TextDecoder.StreamText(BitStream.Stream(bytes.value), 0, l.version) == Some(text)
    {
      RecoveredBytes(f, l, raw, text, bytes);
    }
    if bytes.Err? {
      return Err(bytes.error), vs;
    }
    var text := TextDecoder.Decode(bytes.value, l.version);
    return if text.Err? then Err(Format) else Ok(text.value), vs;
  }
}
