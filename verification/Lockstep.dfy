/**
 `crc_optimal` refines `crc_basic` over whole runs, and exactly when it does.
 */
module Lockstep {
  import opened Words
  import opened Division
  import opened SerialUpdate
  import opened Tables
  import opened TableUpdate
  import opened Computers

  /** The operations that both computers offer. */
  datatype Op =
    | Reset(newRem: Word)
    | ResetToInitial
    | ProcessByte(byte: Byte)
    | ProcessBlock(buffer: seq<Byte>, begin: nat, end: nat)
    | ProcessBytes(bytes: seq<Byte>)
  {
    ghost predicate Fits(cfg: Config)
      requires cfg.Valid()
    {
      match this
      case Reset(newRem) => |newRem| == cfg.digits && SafeStart(cfg, newRem)
      case ResetToInitial => true
      case ProcessByte(_) => true
      case ProcessBlock(buffer, begin, end) => begin <= end <= |buffer|
      case ProcessBytes(_) => true
    }
  }

  /** The remainder after an operation, by definition. */
  ghost function Apply(cfg: Config, r: Word, op: Op): (s: Word)
    requires cfg.Valid() && |r| == cfg.width && op.Fits(cfg)
    ensures |s| == cfg.width
  {
    match op
    case Reset(newRem) => newRem[..cfg.width]
    case ResetToInitial => cfg.init[..cfg.width]
    case ProcessByte(byte) => Divide(cfg, r, [byte])
    case ProcessBlock(buffer, begin, end) => Divide(cfg, r, buffer[begin..end])
    case ProcessBytes(bytes) => Divide(cfg, r, bytes)
  }

  /** The remainder after a run of operations on a new computer. */
  ghost function Replay(cfg: Config, ops: seq<Op>): (s: Word)
    requires cfg.Valid() && forall op :: op in ops ==> op.Fits(cfg)
    ensures |s| == cfg.width
  {
    if ops == [] then cfg.init[..cfg.width]
    else
      Apply(cfg, Replay(cfg, ops[..|ops| - 1]), ops[|ops| - 1])
  }

  lemma {:induction false} ReplayExtends(cfg: Config, ops: seq<Op>)
    requires cfg.Valid() && forall op :: op in ops ==> op.Fits(cfg)
    ensures Replay(cfg, ops[..0]) == cfg.init[..cfg.width]
    ensures forall i :: 0 <= i < |ops| ==> Replay(cfg, ops[..i + 1]) == Apply(cfg, Replay(cfg, ops[..i]), ops[i])
  {
    forall i | 0 <= i < |ops|
      ensures Replay(cfg, ops[..i + 1]) == Apply(cfg, Replay(cfg, ops[..i]), ops[i])
    {
      assert ops[..i + 1][..i] == ops[..i];
    }
  }

  method ApplyBasic(c: CrcBasic, op: Op)
    requires c.Valid() && op.Fits(c.Cfg())
    modifies c`rem
    ensures c.Valid() && c.Remainder() == Apply(c.Cfg(), old(c.Remainder()), op)
  {
    match op
    case Reset(newRem) => c.Reset(newRem);
    case ResetToInitial => c.ResetToInitial();
    case ProcessByte(byte) =>
      SingleByte(byte, c.rftIn);
      c.ProcessByte(byte);
    case ProcessBlock(buffer, begin, end) => c.ProcessBlock(buffer, begin, end);
    case ProcessBytes(bytes) => c.ProcessBytes(bytes);
  }

  lemma {:induction false} SingleByte(byte: Byte, reflect: bool)
    ensures ByteStream([byte], reflect) == InputBits(byte, reflect)
  {
  }

  method ApplyOptimal(c: CrcOptimal, op: Op)
    requires c.Valid() && op.Fits(c.cfg) && c.Clean() && SafeStart(c.cfg, c.cfg.init)
    modifies c`rem
    ensures c.Valid() && c.Clean() && c.Remainder() == Apply(c.cfg, old(c.Remainder()), op)
  {
    hide Divide, DivideFast;
    match op
    case Reset(newRem) => c.Reset(newRem);
    case ResetToInitial => c.ResetToInitial();
    case ProcessByte(byte) => c.ProcessByte(byte);
    case ProcessBlock(buffer, begin, end) => c.ProcessBlock(buffer, begin, end);
    case ProcessBytes(bytes) => c.ProcessBytes(bytes);
  }

  // ----- what runs do -----

  /** A run that ends in a reset forgets what came before. */
  lemma {:induction false} RunAfterReset(cfg: Config, ops: seq<Op>, v: Word)
    requires cfg.Valid() && forall op :: op in ops ==> op.Fits(cfg)
    requires |v| == cfg.digits && SafeStart(cfg, v)
    ensures Replay(cfg, []) == cfg.init[..cfg.width]
    ensures Replay(cfg, ops + [ResetToInitial]) == cfg.init[..cfg.width]
    ensures Replay(cfg, ops + [Reset(v)]) == v[..cfg.width]
  {
    assert (ops + [ResetToInitial])[..|ops|] == ops == (ops + [Reset(v)])[..|ops|];
  }

  /** Each feeding operation divides its bytes, and the three ways of feeding agree. */
  lemma {:induction false} RunAfterFeeding(cfg: Config, ops: seq<Op>, buffer: seq<Byte>, begin: nat, end: nat)
    requires cfg.Valid() && forall op :: op in ops ==> op.Fits(cfg)
    requires begin <= end <= |buffer|
    ensures Replay(cfg, ops + [ProcessBytes(buffer)])
         == Run(Replay(cfg, ops), ByteStream(buffer, cfg.refIn), cfg.poly[..cfg.width])
    ensures Replay(cfg, ops + [ProcessBlock(buffer, begin, end)])
         == Run(Replay(cfg, ops), ByteStream(buffer[begin..end], cfg.refIn), cfg.poly[..cfg.width])
    ensures begin < end ==>
      Replay(cfg, ops + [ProcessByte(buffer[begin])])
        == Run(Replay(cfg, ops), InputBits(buffer[begin], cfg.refIn), cfg.poly[..cfg.width])
  {
    assert (ops + [ProcessBytes(buffer)])[..|ops|] == ops;
    assert (ops + [ProcessBlock(buffer, begin, end)])[..|ops|] == ops;
    if begin < end {
      assert (ops + [ProcessByte(buffer[begin])])[..|ops|] == ops;
      SingleByte(buffer[begin], cfg.refIn);
    }
  }

  predicate Feeds(op: Op) {
    op.ProcessByte? || op.ProcessBytes? || (op.ProcessBlock? && op.begin <= op.end <= |op.buffer|)
  }

  function Payload(op: Op): seq<Byte>
    requires Feeds(op)
  {
    match op
    case ProcessByte(byte) => [byte]
    case ProcessBlock(buffer, begin, end) => buffer[begin..end]
    case _ => op.bytes
  }

  /** The bytes that feeding operations hand over, in order. */
  function Fed(ops: seq<Op>): seq<Byte>
    requires forall i :: 0 <= i < |ops| ==> Feeds(ops[i])
  {
    if ops == [] then [] else Fed(ops[..|ops| - 1]) + Payload(ops[|ops| - 1])
  }

  /** A run that only feeds is one division of all the bytes. */
  lemma {:induction false} FeedingRun(cfg: Config, ops: seq<Op>)
    requires cfg.Valid() && forall op :: op in ops ==> op.Fits(cfg)
    requires forall i :: 0 <= i < |ops| ==> Feeds(ops[i])
    ensures Replay(cfg, ops) == Run(cfg.init[..cfg.width], ByteStream(Fed(ops), cfg.refIn), cfg.poly[..cfg.width])
  {
    hide Run, ByteStream;
    var r := cfg.init[..cfg.width];
    if ops == [] {
      RunNothing(r, cfg.Divisor());
      NoBytes(cfg.refIn);
    } else {
      var before, last := ops[..|ops| - 1], ops[|ops| - 1];
      FeedingRun(cfg, before);
      assert Replay(cfg, ops) == Divide(cfg, Replay(cfg, before), Payload(last));
      DivideSplit(cfg, r, Fed(before), Payload(last));
    }
  }

  lemma {:induction false} NoBytes(reflect: bool)
    ensures ByteStream([], reflect) == []
  {
  }

  lemma {:induction false} ReplayResets(cfg: Config, ops: seq<Op>)
    requires cfg.Valid() && forall op :: op in ops ==> op.Fits(cfg)
    ensures forall k :: 0 <= k < |ops| && ops[k].ResetToInitial? ==> Replay(cfg, ops[..k + 1]) == Replay(cfg, ops[..0])
  {
    ReplayExtends(cfg, ops);
  }

  /** What can be seen of a computer between two operations. */
  datatype Observation = Observation(interim: Word, checksum: Word)

  /**
   Any interleaving of operations, on both computers: before the first
   operation and after every one they show the same interim remainder and the
   same checksum, the ones the formula defines.  Resetting without a value shows
   what was shown at first.
   */
  method RunInLockstep(cfg: Config, ops: seq<Op>)
    returns (basic: seq<Observation>, optimal: seq<Observation>)
    requires cfg.Valid() && SafeStart(cfg, cfg.init)
    requires forall op :: op in ops ==> op.Fits(cfg)
    ensures |basic| == |ops| + 1 && basic == optimal
    ensures forall k :: 0 <= k <= |ops| ==>
      && basic[k].interim == Extend(Replay(cfg, ops[..k]), cfg.digits)
      && basic[k].checksum == Finish(cfg, Replay(cfg, ops[..k]))
    ensures forall k :: 0 <= k < |ops| && ops[k].ResetToInitial? ==> basic[k + 1] == basic[0]
  {
    hide Apply, Replay, Finish, Extend, SafeStart, IsTable;
    ReplayExtends(cfg, ops);
    ReplayResets(cfg, ops);
    var b := new CrcBasic(cfg);
    var o := new CrcOptimal(cfg, cfg.init);
    basic, optimal := [], [];
    var i := 0;
    while i < |ops|
      invariant 0 <= i <= |ops|
      invariant fresh(b) && fresh(o) && fresh(o.table)
      invariant b.Valid() && b.Cfg() == cfg && o.Valid() && o.cfg == cfg && o.Clean()
      invariant b.Remainder() == o.Remainder() == Replay(cfg, ops[..i])
      invariant |basic| == i && basic == optimal
      invariant forall k :: 0 <= k < i ==>
        && basic[k].interim == Extend(Replay(cfg, ops[..k]), cfg.digits)
        && basic[k].checksum == Finish(cfg, Replay(cfg, ops[..k]))
    {
      basic, optimal := Observe(b, o, basic, optimal);
      ApplyBasic(b, ops[i]);
      ApplyOptimal(o, ops[i]);
      i := i + 1;
    }
    basic, optimal := Observe(b, o, basic, optimal);
    assert ops[..|ops|] == ops;
  }

  method Observe(b: CrcBasic, o: CrcOptimal, basic: seq<Observation>, optimal: seq<Observation>)
    returns (basic': seq<Observation>, optimal': seq<Observation>)
    requires b.Valid() && o.Valid() && o.cfg == b.Cfg()
    ensures basic' == basic + [Observation(Extend(b.Remainder(), b.digits), Finish(b.Cfg(), b.Remainder()))]
    ensures optimal' == optimal + [Observation(Extend(o.Remainder(), o.cfg.digits), Finish(o.cfg, o.Remainder()))]
  {
    var bi := b.GetInterimRemainder();
    var bc := b.Checksum();
    var oi := o.GetInterimRemainder();
    var oc := o.Checksum();
    basic', optimal' := basic + [Observation(bi, bc)], optimal + [Observation(oi, oc)];
  }

  // ----- splitting a message -----

  lemma {:induction false} DivideSplit(cfg: Config, r: Word, a: seq<Byte>, b: seq<Byte>)
    requires cfg.Valid() && |r| == cfg.width
    ensures Divide(cfg, r, a + b) == Divide(cfg, Divide(cfg, r, a), b)
  {
    ByteStreamSplit(a, b, cfg.refIn);
    RunSplit(r, ByteStream(a, cfg.refIn), ByteStream(b, cfg.refIn), cfg.Divisor());
  }

  /** The function `crc`. */
  method Crc(cfg: Config, bytes: seq<Byte>) returns (s: Word)
    requires cfg.Valid()
    ensures s == Finish(cfg, DivideFast(cfg, StartRegister(cfg, cfg.init), bytes))
    ensures SafeStart(cfg, cfg.init) ==> s == Checksum(cfg, bytes)
    ensures SafeStart(cfg, cfg.init) ==>
      var r := Run(cfg.init[..cfg.width], ByteStream(bytes, cfg.refIn), cfg.poly[..cfg.width]);
      && (forall i :: 0 <= i < cfg.width ==>
           s[i] == (r[if cfg.refRem then cfg.width - 1 - i else i] != cfg.xorOut[i]))
      && (forall i :: cfg.width <= i < cfg.digits ==> !s[i])
  {
    hide Run, ByteStream, Finish, DivideFast, Xor, IsTable, StartRegister;
    StartRemainder(cfg, cfg.init);
    FinishBits(cfg, Divide(cfg, cfg.init[..cfg.width], bytes));
    var computer := new CrcOptimal(cfg, cfg.init);
    computer.ProcessBytes(bytes);
    s := computer.Checksum();
  }

  /**
   Stopping anywhere, carrying the interim remainder over to a new computer and
   going on there gives the checksum of the whole message.
   */
  method ResumeElsewhere(cfg: Config, a: seq<Byte>, b: seq<Byte>) returns (s: Word)
    requires cfg.Valid() && SafeStart(cfg, cfg.init)
    ensures s == Checksum(cfg, a + b)
  {
    var first := new CrcOptimal(cfg, cfg.init);
    first.ProcessBytes(a);
    var interim := first.GetInterimRemainder();
    var second := new CrcOptimal(cfg, cfg.init);
    second.Reset(interim);
    second.ProcessBytes(b);
    s := second.Checksum();
    DivideSplit(cfg, cfg.init[..cfg.width], a, b);
  }

  // ----- exactly when the mirrored register is right -----

  /** Every message is divided correctly by `crc_optimal` after a reset to this value. */
  ghost predicate AlwaysDivides(cfg: Config, start: Word)
    requires cfg.Valid() && |start| == cfg.digits
  {
    forall bytes: seq<Byte> ::
      DivideFast(cfg, StartRegister(cfg, start), bytes) == Divide(cfg, start[..cfg.width], bytes)
  }

  /**
   Start values with bits above the width are ignored by `crc_basic` and by
   direct registers.  A mirrored register wider than a byte shifts them in, and
   some message then comes out wrong.
   */
  lemma {:induction false} MirroredStartExactly(cfg: Config, start: Word)
    requires cfg.Valid() && |start| == cfg.digits
    ensures AlwaysDivides(cfg, start) <==> SafeStart(cfg, start)
  {
    var rem := StartRegister(cfg, start);
    StartRemainder(cfg, start);
    if SafeStart(cfg, start) {
      forall bytes: seq<Byte>
        ensures DivideFast(cfg, rem, bytes) == Divide(cfg, start[..cfg.width], bytes)
      {
        SafeStartDivides(cfg, rem, bytes);
      }
    } else {
      var w, p := cfg.width, cfg.Divisor();
      var n := FirstLeak(rem, w, p);
      var zero: Byte := Zeros(BYTE_BITS);
      var bytes: seq<Byte> := seq(n, _ => zero);
      XorMoves(Divide(cfg, start[..w], bytes), Leak(rem, w, BYTE_BITS * n, p));
    }
  }

  lemma {:induction false} XorMoves(a: Word, b: Word)
    requires |a| == |b| && b != Zeros(|b|)
    ensures Xor(a, b) != a
  {
    var i: nat :| i < |b| && b[i];
    assert Xor(a, b)[i] != a[i];
  }

  lemma {:induction false} ClearBits(start: Word, w: nat, n: nat)
    requires w <= |start| && BitsAbove(start, w, n) == Zeros(n)
    ensures forall i :: w <= i < |start| && i < w + n ==> !start[i]
  {
    forall i | w <= i < |start| && i < w + n
      ensures !start[i]
    {
      assert BitsAbove(start, w, n)[i - w] == start[i];
    }
  }

  /** After the byte that brings down the first bit set above the width, the remainder is off. */
  lemma {:induction false} FirstLeak(start: Word, w: nat, p: Word) returns (n: nat)
    requires BYTE_BITS <= w == |p| && w <= |start| && start[w..] != Zeros(|start| - w)
    ensures Leak(start, w, BYTE_BITS * n, p) != Zeros(w)
  {
    var i: nat :| i < |start| - w && start[w..][i];
    n := 0;
    while BitsAbove(start, w, BYTE_BITS * (n + 1)) == Zeros(BYTE_BITS * (n + 1))
      invariant BYTE_BITS * n <= i
      invariant BitsAbove(start, w, BYTE_BITS * n) == Zeros(BYTE_BITS * n)
      decreases |start| - BYTE_BITS * n
    {
      ClearBits(start, w, BYTE_BITS * (n + 1));
      n := n + 1;
    }
    var quiet := BYTE_BITS * n;
    var all := BitsAbove(start, w, quiet + BYTE_BITS);
    var last := all[quiet..];
    assert all == Zeros(quiet) + last;
    assert Zeros(quiet) + Zeros(BYTE_BITS) == Zeros(quiet + BYTE_BITS);
    AugRunSplit(Zeros(w), Zeros(quiet), last, p);
    ZeroRunsAgree(Zeros(w), quiet, p);
    ZeroRunOfZero(quiet, p);
    AugRunStores(last, p);
    StoredBits(last, w);
    n := n + 1;
  }

  lemma {:induction false} StoredBits(v: Stream, w: nat)
    requires |v| <= w && v != Zeros(|v|)
    ensures AtBottom(v, w) != Zeros(w)
  {
    var i: nat :| i < |v| && v[i];
    assert AtBottom(v, w)[|v| - 1 - i];
  }
}
