/**
 * General-natural (compact) integers, operand encoding, and the two independent readers of them.
 * Bits set in disjoint positions are combined with `+` where the code uses a bitwise or.
 */
module Codec {
  import opened Base

  // ------------------------------------------------------------ encoding

  /** `2^(7 * (len + 1))`, the first number too large for `len` extra bytes. */
  function Bound(len: nat): nat
    requires 1 <= len <= 8
  {
    match len
    case 1 => 0x4000
    case 2 => 0x20_0000
    case 3 => 0x1000_0000
    case 4 => 0x8_0000_0000
    case 5 => 0x400_0000_0000
    case 6 => 0x2_0000_0000_0000
    case 7 => 0x100_0000_0000_0000
    case 8 => 0x8000_0000_0000_0000
  }

  /** `2^(8 - len)`, the room a prefix byte leaves above the low bytes, doubled. */
  function Room(len: nat): (r: nat)
    requires 1 <= len <= 8
    ensures r > 0
  {
    match len
    case 1 => 128 case 2 => 64 case 3 => 32 case 4 => 16
    case 5 => 8 case 6 => 4 case 7 => 2 case 8 => 1
  }

  lemma {:induction false} Pow2Add(m: nat, n: nat)
    ensures Pow2(m + n) == Pow2(m) * Pow2(n)
    decreases m
  {
    if m > 0 {
      Pow2Add(m - 1, n);
    }
  }

  lemma Pow2Seven()
    ensures Pow2(7) == 128
  {
    assert Pow2(3) == 2 * (2 * (2 * Pow2(0)));
    assert Pow2(7) == 2 * (2 * (2 * (2 * Pow2(3))));
  }

  /** The tables are the powers they stand for. */
  lemma {:induction false} TablesArePowers(len: nat)
    requires 1 <= len <= 8
    ensures Bound(len) == Pow2(7 * (len + 1)) && Room(len) * Pow2(len) == 256
    decreases len
  {
    Pow2Seven();
    Pow2Add(7, 7 * len);
    if len == 1 {
      assert Pow2(1) == 2 * Pow2(0);
    } else {
      TablesArePowers(len - 1);
    }
  }

  /** Extra bytes beyond the prefix; the loop of the encoder from a given candidate on. */
  function ExtraFrom(n: nat, len: nat): nat
    requires 1 <= len <= 8
    decreases 8 - len
  {
    if n >= Bound(len) && len < 8 then ExtraFrom(n, len + 1) else len
  }

  /**
   * The prefix byte: `len` leading ones, then the bits above the low `len` bytes. With eight low bytes there
   * are none: it is 255, also where the code's shift by 64 bits leaves the number as it is.
   */
  function Prefix(n: nat, len: nat): int
    requires 1 <= len <= 8
  {
    256 - Room(len) + n / Width(len)
  }

  function Compact(n: nat): (r: bytes)
    requires n < W64
    ensures |r| >= 1
  {
    if n < 128 then [n]
    else
      var len := ExtraFrom(n, 1);
      ExtraRange(n);
      PrefixDecodes(n, len);
      [Prefix(n, len)] + LowBytes(n, len)
  }

  /** The encoder picks the least length whose range holds `n`. */
  lemma ExtraRange(n: nat)
    requires 128 <= n < W64
    ensures var len := ExtraFrom(n, 1);
            1 <= len <= 8 && (len < 8 ==> n < Bound(len)) && (len > 1 ==> Bound(len - 1) <= n)
  {
    if n >= Bound(1) {
      ExtraRangeFrom(n, 2);
    }
  }

  lemma {:induction false} ExtraRangeFrom(n: nat, len: nat)
    requires 2 <= len <= 8 && Bound(len - 1) <= n
    ensures len <= ExtraFrom(n, len) <= 8
    ensures Bound(ExtraFrom(n, len) - 1) <= n && (ExtraFrom(n, len) < 8 ==> n < Bound(ExtraFrom(n, len)))
    decreases 8 - len
  {
    if n >= Bound(len) && len < 8 {
      ExtraRangeFrom(n, len + 1);
    }
  }

  /** Within its range a prefix fits a byte and shows its length and high bits. */
  lemma PrefixDecodes(n: nat, len: nat)
    requires 1 <= len <= 8 && n < if len < 8 then Bound(len) else W64
    ensures 128 <= Prefix(n, len) < 256
    ensures LeadingOnes(Prefix(n, len)) == len
    ensures Prefix(n, len) % Room(len) == n / Width(len)
  {
    var high := n / Width(len);
    assert if len < 8 then 0 <= high < Room(len) / 2 else high == 0;
  }

  method EncodeCompact(n: nat) returns (out: bytes)
    requires n < W64
    ensures out == Compact(n)
  {
    if n < 128 {
      return [n];
    }
    var len := 1;
    while n >= Bound(len) && len < 8
      invariant 1 <= len <= 8
      invariant ExtraFrom(n, 1) == ExtraFrom(n, len)
    {
      len := len + 1;
    }
    ExtraRange(n);
    PrefixDecodes(n, len);
    var low := EmitLow(n, len);
    out := [256 - Room(len) + n / Width(len)] + low;
  }

  method EmitLow(n: nat, len: nat) returns (out: bytes)
    ensures out == LowBytes(n, len)
  {
    out := [];
    var rem, k := n, 0;
    while k < len
      invariant 0 <= k <= len
      invariant out == LowBytes(n, k) && rem == n / Pow256(k)
    {
      out := out + [rem % 256];
      DivStep(n, Pow256(k));
      rem, k := rem / 256, k + 1;
    }
  }

  /** The arguments of an accumulate invocation: slot, service and item count, at most 15 bytes. */
  function AccArgs(slot: u32, service: u32, count: u32): (r: bytes)
    ensures |r| <= 15
  {
    ShortCompact(slot);
    ShortCompact(service);
    ShortCompact(count);
    Compact(slot) + Compact(service) + Compact(count)
  }

  lemma ShortCompact(n: u32)
    ensures |Compact(n)| <= 5
  {
    if n >= 128 {
      ExtraRange(n);
    }
  }

  // ------------------------------------------------------------ decoding

  /** `leading_ones` of a byte. */
  function LeadingOnes(b: byte): nat {
    if b < 128 then 0 else if b < 192 then 1 else if b < 224 then 2 else if b < 240 then 3
    else if b < 248 then 4 else if b < 252 then 5 else if b < 254 then 6 else if b < 255 then 7 else 8
  }

  /** The interpreter's reader: the value and the offset after it, or nothing on a short input. */
  function ReadCompact(b: bytes, off: nat): Option<(nat, nat)> {
    if off >= |b| then None
    else if b[off] < 128 then Some((b[off], off + 1))
    else
      var extra := LeadingOnes(b[off]);
      if off + 1 + extra > |b| then None
      else
        var low := LE(b, off + 1, extra);
        var high := if extra < 8 then b[off] % Room(extra) else 0;
        Some((low + high * Width(extra), off + 1 + extra))
  }

  /** The same reader with its moving offset. */
  method ReadCompactAt(b: bytes, start: nat) returns (r: Option<(nat, nat)>)
    ensures r == ReadCompact(b, start)
  {
    var off := start;
    if off >= |b| {
      return None;
    }
    var first := b[off];
    off := off + 1;
    if first < 128 {
      return Some((first, off));
    }
    var extra := LeadingOnes(first);
    var value, k := 0, 0;
    while k < extra
      invariant 0 <= k <= extra
      invariant off + k <= |b| && value == LE(b, off, k)
    {
      if off + k >= |b| {
        return None;
      }
      value := value + b[off + k] * Pow256(k);
      k := k + 1;
    }
    off := off + extra;
    if extra < 8 {
      var high := first % Room(extra);
      value := value + high * Width(extra);
    }
    return Some((value, off));
  }

  /** The trace tool's reader, case by case as written there; `None` stands for its index panic. */
  function ToolRead(b: bytes, off: nat): Option<(nat, nat)> {
    if off >= |b| then None
    else
      var first := b[off];
      var len := LeadingOnes(first);
      if first == 0 then Some((0, off + 1))
      else if len == 0 then Some((first, off + 1))
      else if off + 1 + len > |b| then None
      else if len == 8 then Some((LE(b, off + 1, 8), off + 9))
      else Some((LE(b, off + 1, len) + first % Room(len) * Width(len), off + 1 + len))
  }

  /** The two readers agree on every input. */
  lemma ReadersAgree(b: bytes, off: nat)
    ensures ToolRead(b, off) == ReadCompact(b, off)
  {
  }

  /** `part` occupies the positions of `b` from `pos`. */
  ghost predicate At(b: bytes, pos: nat, part: bytes) {
    pos + |part| <= |b| && forall i | 0 <= i < |part| :: part[i] == b[pos + i]
  }

  lemma AtConcat(b: bytes, pos: nat, x: bytes, y: bytes)
    requires At(b, pos, x + y)
    ensures At(b, pos, x) && At(b, pos + |x|, y)
  {
    var whole := x + y;
    forall i | 0 <= i < |x|
      ensures x[i] == b[pos + i]
    {
      assert whole[i] == b[pos + i];
    }
    forall i | 0 <= i < |y|
      ensures y[i] == b[pos + |x| + i]
    {
      assert whole[|x| + i] == b[pos + (|x| + i)];
    }
  }

  lemma AtConcat4(b: bytes, pos: nat, w: bytes, x: bytes, y: bytes, z: bytes)
    requires At(b, pos, w + x + y + z)
    ensures At(b, pos, w) && At(b, pos + |w|, x) && At(b, pos + |w + x|, y) && At(b, pos + |w + x + y|, z)
  {
    AtConcat(b, pos, w + x + y, z);
    AtConcat(b, pos, w + x, y);
    AtConcat(b, pos, w, x);
  }

  lemma AtSlice(b: bytes, pos: nat, part: bytes)
    requires At(b, pos, part)
    ensures b[pos..pos + |part|] == part
  {
  }

  lemma {:induction false} ValueOfLowBytes(b: bytes, off: nat, n: nat, len: nat)
    requires At(b, off, LowBytes(n, len))
    ensures LE(b, off, len) == n % Pow256(len)
    decreases len
  {
    if len > 0 {
      AtConcat(b, off, LowBytes(n, len - 1), [n / Pow256(len - 1) % 256]);
      assert b[off + len - 1] == LowBytes(n, len)[len - 1];
      ValueOfLowBytes(b, off, n, len - 1);
      DigitStep(n, Pow256(len - 1));
    }
  }

  /** The first byte of an encoding of several, and the number its other bytes hold. */
  lemma LongEncoding(b: bytes, pos: nat, n: nat)
    requires 128 <= n < W64 && At(b, pos, Compact(n))
    ensures var len := ExtraFrom(n, 1);
            && 1 <= len <= 8 && |Compact(n)| == 1 + len && pos + 1 + len <= |b|
            && LeadingOnes(b[pos]) == len && b[pos] >= 128
            && b[pos] % Room(len) == n / Width(len)
            && LE(b, pos + 1, len) == n % Width(len)
  {
    var len := ExtraFrom(n, 1);
    ExtraRange(n);
    PrefixDecodes(n, len);
    AtConcat(b, pos, [Prefix(n, len)], LowBytes(n, len));
    assert b[pos] == Compact(n)[0];
    ValueOfLowBytes(b, pos + 1, n, len);
  }

  /** Wherever it stands, an encoding reads back as its number and is consumed exactly. */
  lemma CompactRoundTrip(b: bytes, pos: nat, n: nat)
    requires n < W64 && At(b, pos, Compact(n))
    ensures ReadCompact(b, pos) == Some((n, pos + |Compact(n)|))
    ensures ToolRead(b, pos) == Some((n, pos + |Compact(n)|))
  {
    ReadersAgree(b, pos);
    if n < 128 {
      assert b[pos] == Compact(n)[0];
    } else {
      LongEncoding(b, pos, n);
      SplitAt(n, Width(ExtraFrom(n, 1)));
    }
  }

  // ------------------------------------------------------------ operands

  datatype WorkOutput = Output(data: bytes) | Failed(code: byte)

  datatype Operand = Operand(
    packageHash: bytes, segRoot: bytes, authorizer: bytes, payloadHash: bytes,
    gasLimit: nat, result: WorkOutput, authTrace: bytes)

  /** Four 32-byte hashes; error codes are nonzero; lengths and gas are within the codec's range. */
  predicate ValidOperand(o: Operand) {
    && |o.packageHash| == |o.segRoot| == |o.authorizer| == |o.payloadHash| == 32
    && o.gasLimit < W64 && |o.authTrace| < W64
    && match o.result case Output(d) => |d| < W64 case Failed(code) => code != 0
  }

  function Blob(data: bytes): bytes
    requires |data| < W64
  {
    Compact(|data|) + data
  }

  function EncodeResult(r: WorkOutput): bytes
    requires r.Output? ==> |r.data| < W64
  {
    match r case Output(d) => [0] + Blob(d) case Failed(code) => [code]
  }

  function OperandHead(o: Operand): bytes {
    [0] + o.packageHash + o.segRoot + o.authorizer + o.payloadHash
  }

  function EncodeOperand(o: Operand): bytes
    requires ValidOperand(o)
  {
    OperandHead(o) + Compact(o.gasLimit) + EncodeResult(o.result) + Blob(o.authTrace)
  }

  function Encodings(os: seq<Operand>): (r: seq<bytes>)
    requires forall o | o in os :: ValidOperand(o)
    ensures |r| == |os| && forall k | 0 <= k < |os| :: r[k] == EncodeOperand(os[k])
  {
    seq(|os|, k requires 0 <= k < |os| => EncodeOperand(os[k]))
  }

  function Concat(parts: seq<bytes>): bytes {
    if parts == [] then [] else parts[0] + Concat(parts[1..])
  }

  /** What the guest fetches: the operand count and the encoded operands. */
  function CountedList(parts: seq<bytes>): bytes
    requires |parts| < W64
  {
    Compact(|parts|) + Concat(parts)
  }

  // ------------------------------------------------------------ splitting

  /** A compact-integer reader: the value and the offset after it, or nothing. */
  type Reader = (bytes, nat) -> Option<(nat, nat)>

  /** Wherever an encoding stands, the reader returns its number and consumes it exactly. */
  ghost predicate Inverts(read: Reader) {
    forall b, pos: nat, n: nat | n < W64 && At(b, pos, Compact(n)) :: read(b, pos) == Some((n, pos + |Compact(n)|))
  }

  lemma ReadersInvert()
    ensures Inverts(ReadCompact) && Inverts(ToolRead)
  {
    forall b, pos: nat, n: nat | n < W64 && At(b, pos, Compact(n))
      ensures ReadCompact(b, pos) == ToolRead(b, pos) == Some((n, pos + |Compact(n)|))
    {
      CompactRoundTrip(b, pos, n);
    }
  }

  /** Past a length-prefixed blob. */
  function SkipBlob(read: Reader, b: bytes, pos: nat): Option<nat> {
    match read(b, pos)
    case None => None
    case Some((len, at)) => Some(at + len)
  }

  function SkipResult(read: Reader, b: bytes, pos: nat): Option<nat> {
    if pos >= |b| then None
    else if b[pos] == 0 then SkipBlob(read, b, pos + 1)
    else Some(pos + 1)
  }

  /** Past one operand: tag and hashes, gas, result, trace. */
  function SkipOperand(read: Reader, b: bytes, pos: nat): Option<nat> {
    match read(b, pos + 129)
    case None => None
    case Some((_, at)) =>
      match SkipResult(read, b, at)
      case None => None
      case Some(end) => SkipBlob(read, b, end)
  }

  type Skipper = (bytes, nat) -> Option<nat>

  function OperandSkipper(read: Reader): Skipper {
    (b, pos) => SkipOperand(read, b, pos)
  }

  /** `count` parts from `pos`, and the position after them. */
  function SplitFrom(skip: Skipper, b: bytes, pos: nat, count: nat): Option<(seq<bytes>, nat)>
    decreases count
  {
    if count == 0 then Some(([], pos))
    else match skip(b, pos)
         case None => None
         case Some(end) =>
           if pos <= end <= |b| then Prepend([b[pos..end]], SplitFrom(skip, b, end, count - 1)) else None
  }

  function Prepend(parts: seq<bytes>, r: Option<(seq<bytes>, nat)>): Option<(seq<bytes>, nat)> {
    match r case None => None case Some((rest, last)) => Some((parts + rest, last))
  }

  /** Reads the count, insists on the expected one, and splits what follows, insisting on all of it. */
  function SplitOperands(b: bytes, expected: nat): Option<seq<bytes>> {
    match ToolRead(b, 0)
    case None => None
    case Some((count, off)) =>
      if count != expected then None
      else match SplitFrom(OperandSkipper(ToolRead), b, off, count)
           case Some((parts, last)) => if last == |b| then Some(parts) else None
           case None => None
  }

  method ComputeSplit(b: bytes, expected: nat) returns (r: Option<seq<bytes>>)
    ensures r == SplitOperands(b, expected)
  {
    var head := ToolRead(b, 0);
    if head.None? || head.value.0 != expected {
      return None;
    }
    r := SplitLoop(OperandSkipper(ToolRead), b, head.value.1, expected);
  }

  method SplitLoop(skip: Skipper, b: bytes, off: nat, count: nat) returns (r: Option<seq<bytes>>)
    ensures r == match SplitFrom(skip, b, off, count)
                 case Some((parts, last)) => if last == |b| then Some(parts) else None
                 case None => None
  {
    var parts: seq<bytes> := [];
    var pos: nat := off;
    PrependNothing(SplitFrom(skip, b, off, count));
    for k := 0 to count
      invariant SplitFrom(skip, b, off, count) == Prepend(parts, SplitFrom(skip, b, pos, count - k))
    {
      var end := skip(b, pos);
      if end.None? || !(pos <= end.value <= |b|) {
        return None;
      }
      PrependTwice(parts, b[pos..end.value], SplitFrom(skip, b, end.value, count - k - 1));
      parts, pos := parts + [b[pos..end.value]], end.value;
    }
    assert SplitFrom(skip, b, pos, 0) == Some(([], pos));
    assert parts + [] == parts;
    if pos != |b| {
      return None;
    }
    return Some(parts);
  }

  lemma PrependNothing(r: Option<(seq<bytes>, nat)>)
    ensures Prepend([], r) == r
  {
    if r.Some? {
      assert [] + r.value.0 == r.value.0;
    }
  }

  lemma PrependTwice(parts: seq<bytes>, p: bytes, r: Option<(seq<bytes>, nat)>)
    ensures Prepend(parts, Prepend([p], r)) == Prepend(parts + [p], r)
  {
    if r.Some? {
      assert parts + ([p] + r.value.0) == (parts + [p]) + r.value.0;
    }
  }

  lemma BlobSkips(read: Reader, b: bytes, pos: nat, data: bytes)
    requires Inverts(read) && |data| < W64 && At(b, pos, Blob(data))
    ensures SkipBlob(read, b, pos) == Some(pos + |Blob(data)|)
  {
    AtConcat(b, pos, Compact(|data|), data);
  }

  lemma ResultSkips(read: Reader, b: bytes, pos: nat, r: WorkOutput)
    requires Inverts(read)
    requires r.Output? ==> |r.data| < W64
    requires r.Failed? ==> r.code != 0
    requires At(b, pos, EncodeResult(r))
    ensures SkipResult(read, b, pos) == Some(pos + |EncodeResult(r)|)
  {
    assert b[pos] == EncodeResult(r)[0];
    if r.Output? {
      AtConcat(b, pos, [0], Blob(r.data));
      BlobSkips(read, b, pos + 1, r.data);
    }
  }

  /** Wherever it stands, the part is skipped exactly. */
  ghost predicate Skippable(skip: Skipper, part: bytes) {
    forall b, pos: nat | At(b, pos, part) :: skip(b, pos) == Some(pos + |part|)
  }

  function BlobSkipper(read: Reader): Skipper {
    (b, pos) => SkipBlob(read, b, pos)
  }

  function ResultSkipper(read: Reader): Skipper {
    (b, pos) => SkipResult(read, b, pos)
  }

  lemma BlobSkippable(read: Reader, data: bytes)
    requires Inverts(read) && |data| < W64
    ensures Skippable(BlobSkipper(read), Blob(data))
  {
    forall b, pos: nat | At(b, pos, Blob(data))
      ensures BlobSkipper(read)(b, pos) == Some(pos + |Blob(data)|)
    {
      BlobSkips(read, b, pos, data);
    }
  }

  lemma ResultSkippable(read: Reader, r: WorkOutput)
    requires Inverts(read)
    requires match r case Output(d) => |d| < W64 case Failed(code) => code != 0
    ensures Skippable(ResultSkipper(read), EncodeResult(r))
  {
    forall b, pos: nat | At(b, pos, EncodeResult(r))
      ensures ResultSkipper(read)(b, pos) == Some(pos + |EncodeResult(r)|)
    {
      ResultSkips(read, b, pos, r);
    }
  }

  ghost predicate ReadsAs(read: Reader, part: bytes, n: nat) {
    forall b, pos: nat | At(b, pos, part) :: read(b, pos) == Some((n, pos + |part|))
  }

  lemma NumberReads(read: Reader, n: nat)
    requires Inverts(read) && n < W64
    ensures ReadsAs(read, Compact(n), n)
  {
  }

  lemma FourPartsSkippable(read: Reader, head: bytes, gas: bytes, n: nat, r: bytes, auth: bytes)
    requires |head| == 129 && ReadsAs(read, gas, n)
    requires Skippable(ResultSkipper(read), r) && Skippable(BlobSkipper(read), auth)
    ensures Skippable(OperandSkipper(read), head + gas + r + auth)
  {
    forall b, pos: nat | At(b, pos, head + gas + r + auth)
      ensures OperandSkipper(read)(b, pos) == Some(pos + |head + gas + r + auth|)
    {
      AtConcat4(b, pos, head, gas, r, auth);
    }
  }

  lemma OperandSkippable(read: Reader, o: Operand)
    requires Inverts(read) && ValidOperand(o)
    ensures Skippable(OperandSkipper(read), EncodeOperand(o))
  {
    NumberReads(read, o.gasLimit);
    ResultSkippable(read, o.result);
    BlobSkippable(read, o.authTrace);
    assert |OperandHead(o)| == 129;
    FourPartsSkippable(
      read, OperandHead(o), Compact(o.gasLimit), o.gasLimit, EncodeResult(o.result), Blob(o.authTrace));
  }

  ghost predicate AllSkippable(skip: Skipper, parts: seq<bytes>) {
    parts == [] || (Skippable(skip, parts[0]) && AllSkippable(skip, parts[1..]))
  }

  lemma {:induction false} SplitAll(skip: Skipper, b: bytes, pos: nat, parts: seq<bytes>)
    requires AllSkippable(skip, parts) && At(b, pos, Concat(parts))
    ensures SplitFrom(skip, b, pos, |parts|) == Some((parts, pos + |Concat(parts)|))
    decreases |parts|
  {
    if parts != [] {
      var e, rest := parts[0], parts[1..];
      AtConcat(b, pos, e, Concat(rest));
      SplitAll(skip, b, pos + |e|, rest);
      SplitOne(skip, b, pos, e, rest);
      assert parts == [e] + rest;
    }
  }

  lemma SplitOne(skip: Skipper, b: bytes, pos: nat, e: bytes, rest: seq<bytes>)
    requires Skippable(skip, e) && At(b, pos, e)
    requires SplitFrom(skip, b, pos + |e|, |rest|) == Some((rest, pos + |e| + |Concat(rest)|))
    ensures SplitFrom(skip, b, pos, |rest| + 1) == Some(([e] + rest, pos + |e| + |Concat(rest)|))
  {
    AtSlice(b, pos, e);
    assert skip(b, pos) == Some(pos + |e|);
  }

  lemma {:induction false} EncodingsSkippable(read: Reader, os: seq<Operand>)
    requires Inverts(read) && forall o | o in os :: ValidOperand(o)
    ensures AllSkippable(OperandSkipper(read), Encodings(os))
    decreases |os|
  {
    if os != [] {
      OperandSkippable(read, os[0]);
      EncodingsSkippable(read, os[1..]);
      assert Encodings(os)[1..] == Encodings(os[1..]);
    }
  }

  lemma CountedSplits(head: bytes, parts: seq<bytes>)
    requires ReadsAs(ToolRead, head, |parts|)
    requires AllSkippable(OperandSkipper(ToolRead), parts)
    ensures SplitOperands(head + Concat(parts), |parts|) == Some(parts)
  {
    var b := head + Concat(parts);
    PrefixedSplits(OperandSkipper(ToolRead), head, parts);
    assert ToolRead(b, 0) == Some((|parts|, |head|)) by {
      assert At(b, 0, head);
    }
  }

  /** Splitting the fetched operand list recovers exactly the operands' encodings, in order, with nothing left. */
  lemma OperandListRoundTrip(os: seq<Operand>)
    requires |os| < W64 && forall o | o in os :: ValidOperand(o)
    ensures SplitOperands(CountedList(Encodings(os)), |os|) == Some(Encodings(os))
  {
    ReadersInvert();
    EncodingsSkippable(ToolRead, os);
    NumberReads(ToolRead, |os|);
    CountedSplits(Compact(|os|), Encodings(os));
  }

  lemma PrefixedSplits(skip: Skipper, head: bytes, parts: seq<bytes>)
    requires AllSkippable(skip, parts)
    ensures At(head + Concat(parts), 0, head)
    ensures SplitFrom(skip, head + Concat(parts), |head|, |parts|) == Some((parts, |head + Concat(parts)|))
  {
    AtJoin(head, Concat(parts));
    SplitAll(skip, head + Concat(parts), |head|, parts);
  }

  lemma AtJoin(x: bytes, y: bytes)
    ensures At(x + y, 0, x) && At(x + y, |x|, y)
  {
  }
}
