/**
  Labels and watchpoints: a watchpoint reserves the bytes after it for a jump that may replace them later, so the
  assembler pads before it hands out the next label.
 */
module Watchpoints {
  const NOWHERE := -0x8000_0000

  /** The places a run has handed out, beside what the assembler keeps: where it is, and its last watchpoint. */
  datatype State = State(offset: nat, last: int, tail: int, labels: seq<nat>, watchpoints: seq<nat>)

  datatype Op = Emit(bytes: nat) | Label | LabelForWatchpoint

  const START := State(0, NOWHERE, NOWHERE, [], [])

  function Max(a: int, b: int): (r: int) {
    if a < b then b else a
  }

  function Labelled(s: State): (r: State) {
    var at := Max(s.offset, s.tail);
    s.(offset := at, labels := s.labels + [at])
  }

  /** A second watchpoint at the same place shares its bytes with the first. */
  function Watched(s: State, size: nat): (r: State) {
    var at := if s.offset == s.last then s.offset else Max(s.offset, s.tail);
    s.(offset := at, last := at, tail := at + size, watchpoints := s.watchpoints + [at])
  }

  function Step(s: State, size: nat, op: Op): (r: State) {
    match op
    case Emit(n) => s.(offset := s.offset + n)
    case Label => Labelled(s)
    case LabelForWatchpoint => Watched(s, size)
  }

  function Run(size: nat, ops: seq<Op>): (s: State) {
    if ops == [] then START else Step(Run(size, ops[..|ops| - 1]), size, ops[|ops| - 1])
  }

  /** The bytes of different watchpoints do not overlap, and no label points into them. */
  predicate Apart(s: State, size: nat) {
    && (forall i, j :: 0 <= i < |s.watchpoints| && 0 <= j < |s.watchpoints| && s.watchpoints[i] < s.watchpoints[j] ==>
          s.watchpoints[i] + size <= s.watchpoints[j])
    && (forall i, j :: 0 <= i < |s.labels| && 0 <= j < |s.watchpoints| ==>
          s.labels[i] <= s.watchpoints[j] || s.watchpoints[j] + size <= s.labels[i])
  }

  /** What a run keeps: everything is behind, and only the last watchpoint may reach further. */
  predicate Inv(s: State, size: nat) {
    && Apart(s, size)
    && (forall i :: 0 <= i < |s.labels| ==> s.labels[i] <= s.offset)
    && (forall i :: 0 <= i < |s.watchpoints| ==> s.watchpoints[i] == s.last || s.watchpoints[i] + size <= s.last)
    && (if s.watchpoints == [] then s.last == NOWHERE && s.tail == NOWHERE
        else 0 <= s.last <= s.offset && s.tail == s.last + size && s.last in s.watchpoints)
  }

  lemma LabelKeepsInv(s: State, size: nat)
    requires Inv(s, size)
    ensures Inv(Labelled(s), size)
  {
  }

  lemma WatchKeepsInv(s: State, size: nat)
    requires Inv(s, size)
    ensures Inv(Watched(s, size), size)
  {
    var t := Watched(s, size);
    var n := |s.watchpoints|;
    forall i | 0 <= i < n ensures s.watchpoints[i] == t.last || s.watchpoints[i] + size <= t.last {
      assert s.watchpoints[i] == s.last || s.watchpoints[i] + size <= s.last;
    }
    forall i, j | 0 <= i < |t.watchpoints| && 0 <= j < |t.watchpoints| && t.watchpoints[i] < t.watchpoints[j]
      ensures t.watchpoints[i] + size <= t.watchpoints[j]
    {
      if i < n && j < n { assert s.watchpoints[i] + size <= s.watchpoints[j]; }
    }
  }

  /** In every run of emits, labels and watchpoints. */
  lemma {:induction false} RunKeepsApart(size: nat, ops: seq<Op>)
    ensures Inv(Run(size, ops), size)
    decreases |ops|
  {
    if ops != [] {
      var before := ops[..|ops| - 1];
      RunKeepsApart(size, before);
      match ops[|ops| - 1] {
        case Emit(_) =>
        case Label => LabelKeepsInv(Run(size, before), size);
        case LabelForWatchpoint => WatchKeepsInv(Run(size, before), size);
      }
    }
  }

  lemma RunThen(size: nat, ops: seq<Op>, op: Op)
    ensures Run(size, ops + [op]) == Step(Run(size, ops), size, op)
  {
    assert (ops + [op])[..|ops|] == ops;
  }

  /** Where a label asked for now would be. */
  function NextLabel(size: nat, ops: seq<Op>): (r: nat) {
    Labelled(Run(size, ops)).offset
  }

  /** Where a watchpoint asked for now would be. */
  function NextWatchpoint(size: nat, ops: seq<Op>): (r: nat) {
    Watched(Run(size, ops), size).offset
  }

  /** The last operation but for empty emits was a watchpoint: nothing was emitted and no label padded since. */
  predicate JustWatched(size: nat, ops: seq<Op>) {
    if ops == [] then false
    else match ops[|ops| - 1]
      case LabelForWatchpoint => true
      case Emit(n) => n == 0 && JustWatched(size, ops[..|ops| - 1])
      case Label => size == 0 && JustWatched(size, ops[..|ops| - 1])
  }

  /** The assembler is where its last watchpoint is just when nothing came after that watchpoint. */
  lemma {:induction false} AtLastWatchpoint(size: nat, ops: seq<Op>)
    ensures var s := Run(size, ops); s.offset == s.last <==> JustWatched(size, ops)
    decreases |ops|
  {
    if ops != [] {
      var before := ops[..|ops| - 1];
      AtLastWatchpoint(size, before);
      RunKeepsApart(size, before);
    }
  }

  /** A label is at the end of the code and of the last watchpoint's bytes, whichever is further. */
  lemma LabelIsPastWatchpoint(size: nat, ops: seq<Op>)
    ensures var s := Run(size, ops);
            NextLabel(size, ops) == if s.watchpoints == [] then s.offset else Max(s.offset, s.last + size)
  {
    RunKeepsApart(size, ops);
  }

  /**
    After every run, a watchpoint asked for right behind another is at the same place and pads nothing; any other is
    exactly where a label would be.
   */
  lemma WatchpointIsSharedOrLabelled(size: nat, ops: seq<Op>)
    ensures var s := Run(size, ops);
            NextWatchpoint(size, ops) == if JustWatched(size, ops) then s.offset else NextLabel(size, ops)
    ensures var s, t := Run(size, ops), Run(size, ops + [LabelForWatchpoint]);
            && t.watchpoints == s.watchpoints + [NextWatchpoint(size, ops)] && t.labels == s.labels
            && t.offset == t.last == NextWatchpoint(size, ops)
  {
    AtLastWatchpoint(size, ops);
    RunThen(size, ops, LabelForWatchpoint);
  }

  /** Two watchpoints in a row are one place. */
  lemma SecondWatchpointShares(size: nat, ops: seq<Op>)
    ensures var once := ops + [LabelForWatchpoint];
            var twice := once + [LabelForWatchpoint];
            && Run(size, twice).offset == Run(size, once).offset
            && Run(size, twice).tail == Run(size, once).tail
            && Run(size, twice).watchpoints == Run(size, once).watchpoints + [Run(size, once).last]
  {
    var once := ops + [LabelForWatchpoint];
    assert JustWatched(size, once);
    WatchpointIsSharedOrLabelled(size, ops);
    WatchpointIsSharedOrLabelled(size, once);
    RunThen(size, once, LabelForWatchpoint);
    RunThen(size, ops, LabelForWatchpoint);
  }

  /** A whole number of instruction units: two bytes for Thumb-2, four for ARM64. */
  predicate IsWhole(n: int, thumb: bool) {
    if thumb then n % 2 == 0 else n % 4 == 0
  }

  predicate IsUnits(op: Op, thumb: bool) {
    op.Emit? ==> IsWhole(op.bytes, thumb)
  }

  predicate EmitsUnits(ops: seq<Op>, thumb: bool) {
    ops == [] || (EmitsUnits(ops[..|ops| - 1], thumb) && IsUnits(ops[|ops| - 1], thumb))
  }

  lemma EmitsUnitsThen(ops: seq<Op>, op: Op, thumb: bool)
    requires EmitsUnits(ops, thumb) && IsUnits(op, thumb)
    ensures EmitsUnits(ops + [op], thumb)
  {
    assert (ops + [op])[..|ops|] == ops;
  }

  predicate IsAligned(s: State, thumb: bool) {
    IsWhole(s.offset, thumb) && IsWhole(s.last, thumb) && IsWhole(s.tail, thumb)
  }

  lemma SumIsWhole(a: int, b: int, thumb: bool)
    requires IsWhole(a, thumb) && IsWhole(b, thumb)
    ensures IsWhole(a + b, thumb)
  {
    if thumb {
      SumIsEven(a, b);
    } else {
      SumIsByFour(a, b);
    }
  }

  lemma SumIsEven(a: int, b: int)
    requires a % 2 == 0 && b % 2 == 0
    ensures (a + b) % 2 == 0
  {
  }

  lemma SumIsByFour(a: int, b: int)
    requires a % 4 == 0 && b % 4 == 0
    ensures (a + b) % 4 == 0
  {
  }

  /** `maxJumpReplacementSize` is 4, or 10 for Thumb-2 on some systems. */
  predicate IsReplacementSize(size: nat, thumb: bool) {
    size == 4 || (thumb && size == 10)
  }

  /** Everything in a run is a whole number of units from the start. */
  lemma {:induction false} RunIsAligned(size: nat, ops: seq<Op>, thumb: bool)
    requires IsWhole(size, thumb) && EmitsUnits(ops, thumb)
    ensures IsAligned(Run(size, ops), thumb)
    decreases |ops|
  {
    if ops != [] {
      var s, op := Run(size, ops[..|ops| - 1]), ops[|ops| - 1];
      RunIsAligned(size, ops[..|ops| - 1], thumb);
      match op {
        case Emit(n) => SumIsWhole(s.offset, n, thumb);
        case Label =>
        case LabelForWatchpoint => SumIsWhole(Watched(s, size).last, size, thumb);
      }
    }
  }

  /** The label bookkeeping of the ARM64 and the Thumb-2 assembler: they differ in their instruction sizes and in how they pad. */
  class Labeller {
    const thumb: bool
    const size: nat
    var offset: nat
    var last: int
    var tail: int
    ghost var ops: seq<Op>

    ghost predicate Valid()
      reads this
    {
      && IsReplacementSize(size, thumb) && EmitsUnits(ops, thumb)
      && var s := Run(size, ops);
         offset == s.offset && last == s.last && tail == s.tail
    }

    constructor (thumb: bool, size: nat)
      requires IsReplacementSize(size, thumb)
      ensures Valid() && ops == [] && this.thumb == thumb && this.size == size
    {
      this.thumb, this.size := thumb, size;
      offset, last, tail, ops := 0, NOWHERE, NOWHERE, [];
    }

    method EmitBytes(n: nat)
      requires Valid() && IsWhole(n, thumb)
      modifies this
      ensures Valid() && ops == old(ops) + [Emit(n)]
    {
      offset := offset + n;
      RunThen(size, ops, Emit(n));
      EmitsUnitsThen(ops, Emit(n), thumb);
      ops := ops + [Emit(n)];
    }

    /** The padding loop of ARM64. */
    method PadWithNops() returns (nops: nat)
      requires !thumb && offset % 4 == 0 && tail % 4 == 0
      modifies `offset
      ensures offset == Max(old(offset), tail) == old(offset) + 4 * nops
    {
      nops := 0;
      while offset < tail
        invariant offset % 4 == 0 && old(offset) <= offset <= Max(old(offset), tail) && offset == old(offset) + 4 * nops
      {
        offset, nops := offset + 4, nops + 1;
      }
    }

    /** The padding loop of Thumb-2: wide no-ops, and a narrow one to finish. */
    method PadWithWideNops() returns (wide: nat, narrow: nat)
      requires thumb && offset % 2 == 0 && tail % 2 == 0
      modifies `offset
      ensures offset == Max(old(offset), tail) == old(offset) + 4 * wide + 2 * narrow && narrow <= 1
    {
      wide, narrow := 0, 0;
      while offset < tail
        invariant offset % 2 == 0 && old(offset) <= offset <= Max(old(offset), tail)
        invariant offset == old(offset) + 4 * wide + 2 * narrow && narrow <= (if offset < tail then 0 else 1)
      {
        if offset + 4 <= tail {
          offset, wide := offset + 4, wide + 1;
        } else {
          offset, narrow := offset + 2, narrow + 1;
        }
      }
    }

    /** Ends at exactly the end of the last watchpoint's bytes, or where it was if that is further. */
    method Pad()
      requires Valid()
      modifies `offset
      ensures offset == Max(old(offset), tail)
    {
      assert IsWhole(size, thumb);
      RunIsAligned(size, ops, thumb);
      if thumb {
        var _, _ := PadWithWideNops();
      } else {
        var _ := PadWithNops();
      }
    }

    /** `label` */
    method NewLabel() returns (r: nat)
      requires Valid()
      modifies this
      ensures Valid() && ops == old(ops) + [Label] && r == offset == Max(old(offset), old(tail))
    {
      Pad();
      r := offset;
      RunThen(size, ops, Label);
      EmitsUnitsThen(ops, Label, thumb);
      ops := ops + [Label];
    }

    /** `labelForWatchpoint` */
    method NewWatchpoint() returns (r: nat)
      requires Valid()
      modifies this
      ensures Valid() && ops == old(ops) + [LabelForWatchpoint] && r == offset == last && tail == r + size
      ensures r == if JustWatched(size, old(ops)) then old(offset) else Max(old(offset), old(tail))
    {
      AtLastWatchpoint(size, ops);
      r := offset;
      if r != last {
        Pad();
        r := offset;
      }
      last, tail := r, r + size;
      RunThen(size, ops, LabelForWatchpoint);
      EmitsUnitsThen(ops, LabelForWatchpoint, thumb);
      ops := ops + [LabelForWatchpoint];
    }
  }
}
