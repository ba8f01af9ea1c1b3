/** Accumulate operands and invocation arguments from the guest's side: decoding gives back every field. */
module OperandDecode {
  import opened Base
  import opened Codec

  function ReadBlob(read: Reader, b: bytes, pos: nat): Option<(bytes, nat)> {
    match read(b, pos)
    case None => None
    case Some((len, at)) => if at + len <= |b| then Some((b[at..at + len], at + len)) else None
  }

  /** Tag 0 and a blob, or a nonzero error code. */
  function ReadResult(read: Reader, b: bytes, pos: nat): Option<(WorkOutput, nat)> {
    if pos >= |b| then None
    else if b[pos] != 0 then Some((Failed(b[pos]), pos + 1))
    else match ReadBlob(read, b, pos + 1)
         case None => None
         case Some((data, end)) => Some((Output(data), end))
  }

  /** Tag 0, package hash, segment root, authorizer and payload hash, gas limit, result, and authorizer trace. */
  function ReadOperand(read: Reader, b: bytes, pos: nat): Option<(Operand, nat)> {
    if pos + 129 > |b| || b[pos] != 0 then None
    else match read(b, pos + 129)
      case None => None
      case Some((gas, at)) =>
        match ReadResult(read, b, at)
        case None => None
        case Some((result, end)) =>
          match ReadBlob(read, b, end)
          case None => None
          case Some((trace, last)) =>
            Some((Operand(b[pos + 1..pos + 33], b[pos + 33..pos + 65], b[pos + 65..pos + 97], b[pos + 97..pos + 129],
                          gas, result, trace), last))
  }

  lemma BlobReads(read: Reader, b: bytes, pos: nat, data: bytes)
    requires Inverts(read) && |data| < W64 && At(b, pos, Blob(data))
    ensures ReadBlob(read, b, pos) == Some((data, pos + |Blob(data)|))
  {
    AtConcat(b, pos, Compact(|data|), data);
    assert read(b, pos) == Some((|data|, pos + |Compact(|data|)|));
    AtSlice(b, pos + |Compact(|data|)|, data);
  }

  lemma ResultReads(read: Reader, b: bytes, pos: nat, r: WorkOutput)
    requires match r case Output(d) => |d| < W64 case Failed(code) => code != 0
    requires Inverts(read) && At(b, pos, EncodeResult(r))
    ensures ReadResult(read, b, pos) == Some((r, pos + |EncodeResult(r)|))
  {
    assert b[pos] == EncodeResult(r)[0];
    match r
    case Failed(_) =>
    case Output(data) =>
      AtConcat(b, pos, [0], Blob(data));
      BlobReads(read, b, pos + 1, data);
  }

  lemma HeadReads(b: bytes, pos: nat, o: Operand)
    requires ValidOperand(o) && At(b, pos, OperandHead(o))
    ensures pos + 129 <= |b| && b[pos] == 0
    ensures b[pos + 1..pos + 33] == o.packageHash && b[pos + 33..pos + 65] == o.segRoot
    ensures b[pos + 65..pos + 97] == o.authorizer && b[pos + 97..pos + 129] == o.payloadHash
  {
    assert b[pos] == OperandHead(o)[0];
    AtConcat4(b, pos, [0] + o.packageHash, o.segRoot, o.authorizer, o.payloadHash);
    AtConcat(b, pos, [0], o.packageHash);
    AtSlice(b, pos + 1, o.packageHash);
    AtSlice(b, pos + 33, o.segRoot);
    AtSlice(b, pos + 65, o.authorizer);
    AtSlice(b, pos + 97, o.payloadHash);
  }

  lemma FourParts(b: bytes, pos: nat, head: bytes, gas: bytes, result: bytes, trace: bytes)
    requires At(b, pos, head + gas + result + trace)
    ensures At(b, pos, head) && At(b, pos + |head|, gas) && At(b, pos + |head| + |gas|, result)
    ensures At(b, pos + |head| + |gas| + |result|, trace)
    ensures |head + gas + result + trace| == |head| + |gas| + |result| + |trace|
  {
    AtConcat4(b, pos, head, gas, result, trace);
    assert |head + gas| == |head| + |gas| && |head + gas + result| == |head| + |gas| + |result|;
  }

  /** The four parts of an operand, given by the bytes each occupies. */
  lemma PartsRead(read: Reader, b: bytes, pos: nat, o: Operand, at: nat, end: nat, last: nat)
    requires ValidOperand(o) && At(b, pos, OperandHead(o))
    requires read(b, pos + 129) == Some((o.gasLimit, at))
    requires ReadResult(read, b, at) == Some((o.result, end)) && ReadBlob(read, b, end) == Some((o.authTrace, last))
    ensures ReadOperand(read, b, pos) == Some((o, last))
  {
    HeadReads(b, pos, o);
  }

  lemma NumberHere(b: bytes, pos: nat, n: nat, part: bytes)
    requires n < W64 && part == Compact(n) && At(b, pos, part)
    ensures ReadCompact(b, pos) == Some((n, pos + |part|))
  {
    CompactRoundTrip(b, pos, n);
  }

  lemma ResultHere(b: bytes, pos: nat, r: WorkOutput, part: bytes)
    requires match r case Output(d) => |d| < W64 case Failed(code) => code != 0
    requires part == EncodeResult(r) && At(b, pos, part)
    ensures ReadResult(ReadCompact, b, pos) == Some((r, pos + |part|))
  {
    ReadersInvert();
    ResultReads(ReadCompact, b, pos, r);
  }

  lemma BlobHere(b: bytes, pos: nat, data: bytes, part: bytes)
    requires |data| < W64 && part == Blob(data) && At(b, pos, part)
    ensures ReadBlob(ReadCompact, b, pos) == Some((data, pos + |part|))
  {
    ReadersInvert();
    BlobReads(ReadCompact, b, pos, data);
  }

  lemma OperandIn(b: bytes, pos: nat, o: Operand, gas: bytes, result: bytes, trace: bytes)
    requires ValidOperand(o) && At(b, pos, OperandHead(o)) && At(b, pos + 129, gas)
    requires At(b, pos + 129 + |gas|, result) && At(b, pos + 129 + |gas| + |result|, trace)
    requires gas == Compact(o.gasLimit) && result == EncodeResult(o.result) && trace == Blob(o.authTrace)
    ensures ReadOperand(ReadCompact, b, pos) == Some((o, pos + 129 + |gas| + |result| + |trace|))
  {
    var at := pos + 129 + |gas|;
    NumberHere(b, pos + 129, o.gasLimit, gas);
    ResultHere(b, at, o.result, result);
    BlobHere(b, at + |result|, o.authTrace, trace);
    PartsRead(ReadCompact, b, pos, o, at, at + |result|, at + |result| + |trace|);
  }

  lemma OperandWhole(b: bytes, pos: nat, o: Operand, head: bytes, gas: bytes, result: bytes, trace: bytes)
    requires ValidOperand(o) && At(b, pos, head + gas + result + trace) && head == OperandHead(o)
    requires gas == Compact(o.gasLimit) && result == EncodeResult(o.result) && trace == Blob(o.authTrace)
    ensures ReadOperand(ReadCompact, b, pos) == Some((o, pos + |head + gas + result + trace|))
  {
    FourParts(b, pos, head, gas, result, trace);
    OperandIn(b, pos, o, gas, result, trace);
  }

  /** Wherever it stands, an encoded operand reads back field by field and is consumed exactly. */
  lemma OperandReads(b: bytes, pos: nat, o: Operand)
    requires ValidOperand(o) && At(b, pos, EncodeOperand(o))
    ensures ReadOperand(ReadCompact, b, pos) == Some((o, pos + |EncodeOperand(o)|))
  {
    OperandWhole(b, pos, o, OperandHead(o), Compact(o.gasLimit), EncodeResult(o.result), Blob(o.authTrace));
  }

  /** Three numbers from the start of some bytes, if they are all of it. */
  function ReadThree(read: Reader, b: bytes): Option<(nat, nat, nat)> {
    match read(b, 0)
    case None => None
    case Some((x, i)) =>
      match read(b, i)
      case None => None
      case Some((y, j)) =>
        match read(b, j)
        case None => None
        case Some((z, end)) => if end == |b| then Some((x, y, z)) else None
  }

  lemma ThreeParts(b: bytes, p: bytes, q: bytes, r: bytes)
    requires b == p + q + r
    ensures At(b, 0, p) && At(b, |p|, q) && At(b, |p| + |q|, r) && |b| == |p| + |q| + |r|
  {
    AtConcat(b, 0, p + q, r);
    AtConcat(b, 0, p, q);
  }

  lemma ThreeOf(read: Reader, b: bytes, x: nat, i: nat, y: nat, j: nat, z: nat)
    requires read(b, 0) == Some((x, i)) && read(b, i) == Some((y, j)) && read(b, j) == Some((z, |b|))
    ensures ReadThree(read, b) == Some((x, y, z))
  {
  }

  lemma ThreeIn(b: bytes, x: u32, y: u32, z: u32, p: bytes, q: bytes, r: bytes)
    requires At(b, 0, p) && At(b, |p|, q) && At(b, |p| + |q|, r) && |b| == |p| + |q| + |r|
    requires p == Compact(x) && q == Compact(y) && r == Compact(z)
    ensures ReadThree(ReadCompact, b) == Some((x, y, z))
  {
    NumberHere(b, 0, x, p);
    NumberHere(b, |p|, y, q);
    NumberHere(b, |p| + |q|, z, r);
    ThreeOf(ReadCompact, b, x, |p|, y, |p| + |q|, z);
  }

  /** The arguments of an invocation are its slot, service and operand count, in this order and nothing else. */
  lemma ArgsRead(slot: u32, service: u32, count: u32)
    ensures ReadThree(ReadCompact, AccArgs(slot, service, count)) == Some((slot, service, count))
  {
    ThreeParts(AccArgs(slot, service, count), Compact(slot), Compact(service), Compact(count));
    ThreeIn(AccArgs(slot, service, count), slot, service, count, Compact(slot), Compact(service), Compact(count));
  }
}
