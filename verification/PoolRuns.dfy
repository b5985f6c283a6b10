/**
  Runs of the constant-pool buffer: every word carries the role it plays, every load the constant it stands for.
  Each step of the buffer keeps `Inv`.
 */
module PoolRuns {
  import opened ArmWord
  import opened ConstantPool

  type LoadInsn = w: Word | IsLoadTemplate(w) witness Word(ALWAYS, 5, true, 0x1f, 0, 0)

  /** What the assembler asked for. */
  datatype Request = Plain(word: Word) | WithConstant(insn: LoadInsn, constant: Word, isReusable: bool)

  /** Why a word is in the code. A barrier knows where its pool ends, a constant where its pool starts. */
  datatype Role = Insn(request: Request) | Barrier(end: nat) | Padding | Constant(start: nat)

  predicate InPool(role: Role) {
    role.Padding? || role.Constant?
  }

  /** A load at word position `at`. Its slot is a pool index while it waits and a word position once it is placed. */
  datatype Load = Load(at: nat, insn: LoadInsn, constant: Word, isReusable: bool, slot: nat)

  /** `linked` has the last target each linked jump was given. */
  datatype State = State(b: Buffer, roles: seq<Role>, waiting: seq<Load>, placed: seq<Load>, linked: map<nat, Word>)

  // ----- the invariant -----

  ghost predicate Shape(s: State) {
    && |s.roles| == |s.b.code|
    && |s.b.reusable| == |s.b.pool| < 0x200
    && |s.b.loads| == |s.waiting|
    && (forall k :: k in s.linked ==> k < |s.roles|)
    && (forall i :: 0 <= i < |s.waiting| ==> s.b.loads[i] == s.waiting[i].at)
  }

  /** A waiting load carries the index of its own constant, with the marker bit set. */
  ghost predicate Waits(s: State, l: Load) {
    && l.at < |s.b.code| == |s.roles| && l.slot < |s.b.pool| == |s.b.reusable| < 0x200
    && s.b.code[l.at] == StampIndex(l.insn, l.slot)
    && s.b.pool[l.slot] == l.constant
    && s.b.reusable[l.slot] == l.isReusable
    && IsRequested(s, l)
  }

  /** The word is still the load `l`, and addresses its slot. */
  ghost predicate IsPlacedLoad(w: Word, l: Load) {
    && SameButAddress(w, l.insn) && w.offset % 2 == 0
    && LiteralAddress(w, WORD_SIZE * l.at) == WORD_SIZE * l.slot
  }

  /** A placed load is the load it was, and reads its own constant out of the code. */
  ghost predicate Reads(s: State, l: Load) {
    && l.at < |s.b.code| == |s.roles| && l.slot < |s.b.code|
    && IsPlacedLoad(s.b.code[l.at], l)
    && s.roles[l.slot].Constant?
    && s.b.code[l.slot] == l.constant
    && IsRequested(s, l)
  }

  /** The instruction was requested, and its constant is the requested one, or its last target if it was linked. */
  ghost predicate IsRequested(s: State, l: Load)
    requires l.at < |s.roles|
  {
    && s.roles[l.at].Insn? && s.roles[l.at].request.WithConstant?
    && s.roles[l.at].request.insn == l.insn
    && s.roles[l.at].request.isReusable == l.isReusable
    && l.constant == (if l.at in s.linked then s.linked[l.at] else s.roles[l.at].request.constant)
  }

  /** Loads stand in code order, and only loads of a reusable constant share a slot. */
  ghost predicate Separate(loads: seq<Load>) {
    forall i, j :: 0 <= i < j < |loads| ==>
                     && loads[i].at < loads[j].at
                     && (loads[i].slot == loads[j].slot ==> loads[i].isReusable && loads[j].isReusable)
  }

  ghost predicate Loads(s: State) {
    && (forall i :: 0 <= i < |s.waiting| ==> Waits(s, s.waiting[i]))
    && (forall i :: 0 <= i < |s.placed| ==> Reads(s, s.placed[i]))
    && Separate(s.waiting) && Separate(s.placed)
    && (forall i, j :: 0 <= i < |s.placed| && 0 <= j < |s.waiting| ==> s.placed[i].at < s.waiting[j].at)
  }

  /** Bytes since the first waiting load. */
  function Waited(s: State): (r: int)
    requires s.waiting != []
  {
    WORD_SIZE * (|s.b.code| - s.waiting[0].at)
  }

  /**
    Distances. After a flush inside a constant load the distance is stale and may be negative, but then the load just
    emitted is the only one waiting.
   */
  ghost predicate Budget(s: State) {
    && s.b.lastConstDelta in {0, 4}
    && s.b.maxDistance <= MAX_POOL_SIZE
    && (s.b.pool == [] <==> s.waiting == []) && |s.b.pool| <= |s.waiting|
    && (s.waiting != [] ==>
          && Waited(s) + s.b.maxDistance <= MAX_POOL_SIZE
          && (s.b.maxDistance >= 0 || Waited(s) <= WORD_SIZE)
          && (forall k :: s.waiting[0].at <= k < |s.roles| ==> s.roles[k].Insn?))
    && (forall i :: 0 <= i < |s.waiting| ==> s.waiting[i].at >= s.waiting[0].at + i && s.waiting[i].slot <= i)
  }

  /** A barrier jumps exactly past its pool, to the next instruction. */
  ghost predicate BarrierOk(s: State, k: nat)
    requires k < |s.roles| == |s.b.code| && s.roles[k].Barrier?
  {
    var end := s.roles[k].end;
    && k + 1 < end <= |s.roles|
    && IsBranch(s.b.code[k]) && s.b.code[k].cond == ALWAYS
    && BranchAddress(s.b.code[k], WORD_SIZE * k) == WORD_SIZE * end
    && (forall i :: k < i < end ==> InPool(s.roles[i]))
    && (end == |s.roles| || s.roles[end].Insn?)
  }

  ghost predicate HasLoad(s: State, k: nat) {
    || (exists i :: 0 <= i < |s.waiting| && s.waiting[i].at == k)
    || (exists i :: 0 <= i < |s.placed| && s.placed[i].at == k)
  }

  /** A constant belongs to the pool at its `start`: at an eight-byte boundary, constants from there on, and none before. */
  predicate PoolOk(roles: seq<Role>, k: nat)
    requires k < |roles| && roles[k].Constant?
  {
    var start := roles[k].start;
    && start % 2 == 0 && 0 < start <= k
    && (forall i :: start <= i <= k ==> roles[i] == Constant(start))
    && !roles[start - 1].Constant?
  }

  ghost predicate RoleOk(s: State, k: nat)
    requires k < |s.roles| == |s.b.code|
  {
    && (k == 0 ==> s.roles[k].Insn?)
    && match s.roles[k]
       case Insn(Plain(w)) => s.b.code[k] == w
       case Insn(WithConstant(_, _, _)) => HasLoad(s, k)
       case Barrier(_) => BarrierOk(s, k)
       case Padding => s.b.code[k] == PAD && k + 1 < |s.roles| && s.roles[k + 1].Constant?
       case Constant(_) => PoolOk(s.roles, k)
  }

  ghost predicate Layout(s: State)
    requires |s.roles| == |s.b.code|
  {
    forall k :: 0 <= k < |s.roles| ==> RoleOk(s, k)
  }

  ghost predicate Inv(s: State) {
    Shape(s) && Loads(s) && Budget(s) && Layout(s)
  }

  // ----- the steps -----

  function FlushedRoles(s: State, useBarrier: bool): (r: seq<Role>)
    requires |s.roles| == |s.b.code|
    ensures |r| == PoolStart(s.b, useBarrier) + |s.b.pool| && s.roles <= r
    ensures forall i :: PoolStart(s.b, useBarrier) <= i < |r| ==> r[i] == Constant(PoolStart(s.b, useBarrier))
    ensures forall i :: |s.roles| <= i < PoolStart(s.b, useBarrier) ==>
                          r[i] == if useBarrier && i == |s.roles| then Barrier(|r|) else Padding
  {
    var start := PoolStart(s.b, useBarrier);
    s.roles
    + (if useBarrier then [Barrier(start + |s.b.pool|)] else [])
    + (if NeedsPadding(s.b, useBarrier) then [Padding] else [])
    + seq(|s.b.pool|, _ => Constant(start))
  }

  function FlushedLoads(s: State, useBarrier: bool): (r: seq<Load>)
    ensures |r| == |s.waiting|
  {
    var start := PoolStart(s.b, useBarrier);
    seq(|s.waiting|, i requires 0 <= i < |s.waiting| => s.waiting[i].(slot := start + s.waiting[i].slot))
  }

  function DoFlush(s: State, useBarrier: bool): (r: State)
    requires CanFlush(s.b) && |s.roles| == |s.b.code|
  {
    if s.b.pool == [] then s
    else State(Flush(s.b, useBarrier), FlushedRoles(s, useBarrier), [],
               s.placed + FlushedLoads(s, useBarrier), s.linked)
  }

  function DoAppendPlain(s: State, word: Word): (r: State) {
    s.(b := AppendPlain(s.b, word), roles := s.roles + [Insn(Plain(word))])
  }

  function DoAppendLoad(s: State, insn: LoadInsn, constant: Word, isReusable: bool): (r: State)
    requires |s.b.reusable| == |s.b.pool| < 0x200
  {
    var entry := EntryFor(s.b, constant, isReusable);
    s.(b := AppendLoad(s.b, insn, constant, isReusable),
       roles := s.roles + [Insn(WithConstant(insn, constant, isReusable))],
       waiting := s.waiting + [Load(|s.b.code|, insn, constant, isReusable, entry)])
  }

  // ----- the invariant is kept: flushing -----

  lemma InvCanFlush(s: State)
    requires Inv(s)
    ensures CanFlush(s.b)
    ensures forall i :: 0 <= i < |s.waiting| ==>
                          OffsetFits(s.b.code[s.waiting[i].at], |s.b.code| + 2 - s.waiting[i].at)
  {
    forall i | 0 <= i < |s.waiting|
      ensures OffsetFits(s.b.code[s.waiting[i].at], |s.b.code| + 2 - s.waiting[i].at)
    {
      assert Waits(s, s.waiting[i]);
    }
    forall k | k in s.b.loads ensures k < |s.b.code| && OffsetFits(s.b.code[k], |s.b.code| + 2 - k) {
      var i :| 0 <= i < |s.b.loads| && s.b.loads[i] == k;
      assert Waits(s, s.waiting[i]);
    }
  }

  lemma InstructionsAreWaiting(s: State, k: nat)
    requires Inv(s) && k in s.b.loads
    ensures k < |s.roles| && s.roles[k].Insn? && s.roles[k].request.WithConstant?
    ensures exists i :: 0 <= i < |s.waiting| && s.waiting[i].at == k
    ensures forall j :: 0 <= j < |s.placed| ==> s.placed[j].at != k
  {
    var i :| 0 <= i < |s.b.loads| && s.b.loads[i] == k;
    assert Waits(s, s.waiting[i]);
  }

  ghost predicate HasFlushedRoles(s: State, useBarrier: bool, start: nat, roles: seq<Role>) {
    && |roles| == start + |s.b.pool| && |s.roles| <= start <= |s.roles| + (if useBarrier then 2 else 1) && start % 2 == 0
    && (forall k :: 0 <= k < |s.roles| ==> roles[k] == s.roles[k])
    && (forall k :: start <= k < |roles| ==> roles[k] == Constant(start))
    && (forall k :: |s.roles| <= k < start ==>
                      roles[k] == if useBarrier && k == |s.roles| then Barrier(|roles|) else Padding)
  }

  ghost predicate HasFlushedLoads(s: State, start: nat, placed: seq<Load>) {
    && |placed| == |s.placed| + |s.waiting|
    && (forall j :: 0 <= j < |s.placed| ==> placed[j] == s.placed[j])
    && (forall j :: 0 <= j < |s.waiting| ==> placed[|s.placed| + j] == s.waiting[j].(slot := start + s.waiting[j].slot))
  }

  /** What a flush of a pool that starts at `start` makes of `s`. */
  ghost predicate IsFlushed(s: State, useBarrier: bool, start: nat, t: State) {
    && |s.roles| == |s.b.code|
    && HasFlushedCode(s.b, useBarrier, start, t.b.code)
    && HasFlushedRoles(s, useBarrier, start, t.roles)
    && HasFlushedLoads(s, start, t.placed)
    && t == State(s.b.(code := t.b.code, pool := [], reusable := [], loads := []), t.roles, [], t.placed, s.linked)
  }

  lemma FlushIsFlushed(s: State, useBarrier: bool)
    requires CanFlush(s.b) && s.b.pool != [] && |s.roles| == |s.b.code| && |s.b.pool| < 0x200
    ensures IsFlushed(s, useBarrier, PoolStart(s.b, useBarrier), DoFlush(s, useBarrier))
  {
    FlushedCode(s.b, useBarrier);
    FlushHasRoles(s, useBarrier);
    FlushHasLoads(s, useBarrier);
  }

  lemma FlushHasRoles(s: State, useBarrier: bool)
    requires |s.roles| == |s.b.code|
    ensures HasFlushedRoles(s, useBarrier, PoolStart(s.b, useBarrier), FlushedRoles(s, useBarrier))
  {
  }

  lemma FlushHasLoads(s: State, useBarrier: bool)
    ensures HasFlushedLoads(s, PoolStart(s.b, useBarrier), s.placed + FlushedLoads(s, useBarrier))
  {
  }

  lemma FlushKeepsPlaced(s: State, useBarrier: bool, start: nat, t: State, l: Load)
    requires IsFlushed(s, useBarrier, start, t)
    requires Reads(s, l) && l.at !in s.b.loads && l.slot !in s.b.loads
    ensures Reads(t, l)
  {
  }

  lemma PatchedLoadIsPlaced(l: Load, start: nat)
    requires l.slot < 0x200 && l.at < start && OffsetFits(StampIndex(l.insn, l.slot), start - l.at)
    ensures IsPlacedLoad(PatchLoad(StampIndex(l.insn, l.slot), start - l.at), l.(slot := start + l.slot))
  {
    PatchedLoadReadsItsEntry(l.insn, l.slot, start - l.at, WORD_SIZE * l.at);
  }

  lemma FlushPlacesWord(b: Buffer, useBarrier: bool, start: nat, code: seq<Word>, l: Load)
    requires HasFlushedCode(b, useBarrier, start, code) && l.at in b.loads && l.at < |b.code|
    requires l.slot < |b.pool| < 0x200 && b.code[l.at] == StampIndex(l.insn, l.slot)
    ensures IsPlacedLoad(code[l.at], l.(slot := start + l.slot)) && code[start + l.slot] == b.pool[l.slot]
  {
    PatchedLoadIsPlaced(l, start);
  }

  lemma FlushPlacesWaiting(s: State, useBarrier: bool, start: nat, t: State, l: Load)
    requires IsFlushed(s, useBarrier, start, t)
    requires Waits(s, l) && l.at in s.b.loads
    ensures Reads(t, l.(slot := start + l.slot))
  {
    FlushPlacesWord(s.b, useBarrier, start, t.b.code, l);
    assert t.roles[l.at] == s.roles[l.at] && t.roles[start + l.slot] == Constant(start);
  }

  lemma FlushKeepsBarrier(s: State, useBarrier: bool, start: nat, t: State, k: nat)
    requires IsFlushed(s, useBarrier, start, t)
    requires k < |s.roles| && s.roles[k].Barrier? && k !in s.b.loads
    requires BarrierOk(s, k) && s.roles[k].end < |s.roles|
    ensures BarrierOk(t, k)
  {
    assert forall i :: k < i < s.roles[k].end ==> InPool(s.roles[i]) && t.roles[i] == s.roles[i];
  }

  lemma WaitingAfterBarriers(s: State, k: nat)
    requires Inv(s) && s.waiting != []
    requires k < |s.roles| && s.roles[k].Barrier?
    ensures s.roles[k].end < |s.roles|
  {
    assert RoleOk(s, k) && Waits(s, s.waiting[0]);
    assert InPool(s.roles[s.roles[k].end - 1]);
  }

  lemma FlushKeepsLoad(s: State, start: nat, t: State, k: nat)
    requires HasFlushedLoads(s, start, t.placed) && HasLoad(s, k)
    ensures HasLoad(t, k)
  {
    if i :| 0 <= i < |s.waiting| && s.waiting[i].at == k {
      assert t.placed[|s.placed| + i].at == k;
    } else {
      var i :| 0 <= i < |s.placed| && s.placed[i].at == k;
      assert t.placed[i].at == k;
    }
  }

  lemma FlushKeepsRole(s: State, useBarrier: bool, start: nat, t: State, k: nat)
    requires Inv(s) && s.b.pool != [] && k < |s.roles|
    requires IsFlushed(s, useBarrier, start, t)
    ensures RoleOk(t, k)
  {
    assert RoleOk(s, k);
    if k in s.b.loads { InstructionsAreWaiting(s, k); }
    match s.roles[k]
    case Insn(Plain(_)) =>
    case Insn(WithConstant(_, _, _)) =>
      FlushKeepsLoad(s, start, t, k);
    case Barrier(_) =>
      WaitingAfterBarriers(s, k);
      FlushKeepsBarrier(s, useBarrier, start, t, k);
    case Padding =>
    case Constant(_) =>
  }

  lemma FlushAddsRole(s: State, useBarrier: bool, start: nat, t: State, k: nat)
    requires IsFlushed(s, useBarrier, start, t) && s.b.pool != [] && |s.roles| <= k < |t.roles|
    requires s.roles != [] && s.roles[|s.roles| - 1].Insn?
    ensures RoleOk(t, k)
  {
    if t.roles[k].Barrier? { BranchReaches(ALWAYS, |t.roles| - k - 2, WORD_SIZE * k); }
  }

  lemma FlushKeepsPlacedAt(s: State, useBarrier: bool, start: nat, t: State, j: nat)
    requires Inv(s) && s.b.pool != [] && j < |s.placed| && IsFlushed(s, useBarrier, start, t)
    ensures Reads(t, s.placed[j])
  {
    var l := s.placed[j];
    assert Reads(s, l);
    if l.at in s.b.loads { InstructionsAreWaiting(s, l.at); }
    if l.slot in s.b.loads { InstructionsAreWaiting(s, l.slot); }
    FlushKeepsPlaced(s, useBarrier, start, t, l);
  }

  lemma FlushPlacesWaitingAt(s: State, useBarrier: bool, start: nat, t: State, j: nat)
    requires Inv(s) && j < |s.waiting| && IsFlushed(s, useBarrier, start, t)
    ensures Reads(t, t.placed[|s.placed| + j])
  {
    assert Waits(s, s.waiting[j]) && s.b.loads[j] == s.waiting[j].at;
    FlushPlacesWaiting(s, useBarrier, start, t, s.waiting[j]);
  }

  lemma FlushKeepsSeparate(s: State, start: nat, placed: seq<Load>)
    requires Loads(s) && HasFlushedLoads(s, start, placed) && |s.b.code| <= start
    ensures Separate(placed)
  {
    forall i, j | 0 <= i < j < |placed|
      ensures placed[i].at < placed[j].at
      ensures placed[i].slot == placed[j].slot ==> placed[i].isReusable && placed[j].isReusable
    {
      var n := |s.placed|;
      if i < n { assert Reads(s, s.placed[i]); }
      if j >= n { assert placed[n + (j - n)] == s.waiting[j - n].(slot := start + s.waiting[j - n].slot); }
      if i >= n { assert placed[n + (i - n)] == s.waiting[i - n].(slot := start + s.waiting[i - n].slot); }
    }
  }

  lemma FlushedKeepsLoads(s: State, useBarrier: bool, start: nat, t: State)
    requires Inv(s) && s.b.pool != [] && IsFlushed(s, useBarrier, start, t)
    ensures Loads(t)
  {
    forall j | 0 <= j < |t.placed| ensures Reads(t, t.placed[j]) {
      if j < |s.placed| { FlushKeepsPlacedAt(s, useBarrier, start, t, j); }
      else { FlushPlacesWaitingAt(s, useBarrier, start, t, j - |s.placed|); }
    }
    FlushKeepsSeparate(s, start, t.placed);
  }

  /** Only waiting loads are flushed, and everything since the first of them is instructions. */
  lemma FlushFollowsInstruction(s: State)
    requires Inv(s) && s.b.pool != []
    ensures s.roles != [] && s.roles[|s.roles| - 1].Insn?
  {
    assert Waits(s, s.waiting[0]);
  }

  lemma FlushedKeepsInv(s: State, useBarrier: bool, start: nat, t: State)
    requires Inv(s) && s.b.pool != [] && IsFlushed(s, useBarrier, start, t)
    ensures Inv(t)
  {
    FlushedKeepsLoads(s, useBarrier, start, t);
    FlushFollowsInstruction(s);
    forall k | 0 <= k < |t.roles| ensures RoleOk(t, k) {
      if k < |s.roles| { FlushKeepsRole(s, useBarrier, start, t, k); } else { FlushAddsRole(s, useBarrier, start, t, k); }
    }
  }

  lemma FlushKeepsInv(s: State, useBarrier: bool)
    requires Inv(s) && CanFlush(s.b)
    ensures Inv(DoFlush(s, useBarrier))
  {
    if s.b.pool != [] {
      FlushIsFlushed(s, useBarrier);
      FlushedKeepsInv(s, useBarrier, PoolStart(s.b, useBarrier), DoFlush(s, useBarrier));
    }
  }

  // ----- the invariant is kept: appending -----

  /** Appending one instruction leaves the words, the roles and the loads before it alone. */
  ghost predicate Extends(s: State, t: State) {
    && |t.b.code| == |t.roles| == |s.roles| + 1 == |s.b.code| + 1
    && s.b.code <= t.b.code && s.roles <= t.roles && t.roles[|s.roles|].Insn?
    && s.b.pool <= t.b.pool && s.b.reusable <= t.b.reusable
    && t.placed == s.placed && s.waiting <= t.waiting && t.linked == s.linked
    && |t.b.reusable| == |t.b.pool| < 0x200
  }

  lemma ExtensionKeepsRole(s: State, t: State, k: nat)
    requires Extends(s, t) && k < |s.roles| && RoleOk(s, k)
    ensures RoleOk(t, k)
  {
    match s.roles[k]
    case Insn(Plain(_)) =>
    case Insn(WithConstant(_, _, _)) =>
      if i :| 0 <= i < |s.waiting| && s.waiting[i].at == k { assert t.waiting[i].at == k; }
    case Barrier(end) =>
      assert forall i :: k < i < end ==> InPool(s.roles[i]) && t.roles[i] == s.roles[i];
    case Padding =>
    case Constant(_) =>
  }

  lemma ExtensionKeepsLoads(s: State, t: State)
    requires Extends(s, t) && Loads(s)
    ensures forall i :: 0 <= i < |s.waiting| ==> Waits(t, s.waiting[i])
    ensures forall i :: 0 <= i < |s.placed| ==> Reads(t, s.placed[i])
  {
    forall i | 0 <= i < |s.waiting| ensures Waits(t, s.waiting[i]) { assert Waits(s, s.waiting[i]); }
    forall i | 0 <= i < |s.placed| ensures Reads(t, s.placed[i]) { assert Reads(s, s.placed[i]); }
  }

  lemma AppendPlainKeepsInv(s: State, word: Word)
    requires Inv(s) && !NeedsFlush(s.b, WORD_SIZE)
    ensures Inv(DoAppendPlain(s, word))
  {
    var t := DoAppendPlain(s, word);
    assert Extends(s, t);
    ExtensionKeepsLoads(s, t);
    forall k | 0 <= k < |t.roles| ensures RoleOk(t, k) {
      if k < |s.roles| { ExtensionKeepsRole(s, t, k); }
    }
  }

  lemma AppendLoadKeepsLoads(s: State, insn: LoadInsn, constant: Word, isReusable: bool)
    requires Inv(s) && (s.b.pool == [] || !NeedsFlushForConstant(s.b, WORD_SIZE, WORD_SIZE))
    ensures Extends(s, DoAppendLoad(s, insn, constant, isReusable))
    ensures Loads(DoAppendLoad(s, insn, constant, isReusable))
  {
    var t := DoAppendLoad(s, insn, constant, isReusable);
    var l := t.waiting[|s.waiting|];
    PoolHasRoom(s);
    NewLoadWaits(s, insn, constant, isReusable);
    NewLoadIsSeparate(s, l, constant, isReusable);
    ExtendedLoads(s, t, l);
  }

  lemma ExtendedLoads(s: State, t: State, l: Load)
    requires Loads(s) && Extends(s, t) && t.waiting == s.waiting + [l] && Waits(t, l)
    requires forall i :: 0 <= i < |s.waiting| ==>
               s.waiting[i].at < l.at && (s.waiting[i].slot == l.slot ==> s.waiting[i].isReusable && l.isReusable)
    requires forall i :: 0 <= i < |s.placed| ==> s.placed[i].at < l.at
    ensures Loads(t)
  {
    ExtensionKeepsLoads(s, t);
  }

  lemma PoolHasRoom(s: State)
    requires Inv(s) && (s.b.pool == [] || !NeedsFlushForConstant(s.b, WORD_SIZE, WORD_SIZE))
    ensures |s.b.reusable| == |s.b.pool| < 0x1ff && |s.roles| == |s.b.code|
    ensures forall k :: k in s.linked ==> k < |s.roles|
  {
  }

  lemma NewLoadWaits(s: State, insn: LoadInsn, constant: Word, isReusable: bool)
    requires |s.b.reusable| == |s.b.pool| < 0x1ff && |s.roles| == |s.b.code| && forall k :: k in s.linked ==> k < |s.roles|
    ensures var t := DoAppendLoad(s, insn, constant, isReusable);
            Extends(s, t) && Waits(t, t.waiting[|s.waiting|])
  {
  }

  /** The new load comes after all others, and shares its slot only with loads of the same reusable constant. */
  lemma NewLoadIsSeparate(s: State, l: Load, constant: Word, isReusable: bool)
    requires Loads(s) && |s.b.reusable| == |s.b.pool| && l.at == |s.b.code| && l.isReusable == isReusable
    requires l.slot == EntryFor(s.b, constant, isReusable)
    ensures forall i :: 0 <= i < |s.waiting| ==>
              s.waiting[i].at < l.at && (s.waiting[i].slot == l.slot ==> s.waiting[i].isReusable && l.isReusable)
    ensures forall i :: 0 <= i < |s.placed| ==> s.placed[i].at < l.at
  {
    forall i | 0 <= i < |s.waiting|
      ensures s.waiting[i].at < l.at
      ensures s.waiting[i].slot == l.slot ==> s.waiting[i].isReusable && l.isReusable
    {
      assert Waits(s, s.waiting[i]);
    }
    forall i | 0 <= i < |s.placed| ensures s.placed[i].at < l.at { assert Reads(s, s.placed[i]); }
  }

  lemma AppendLoadKeepsInv(s: State, insn: LoadInsn, constant: Word, isReusable: bool)
    requires Inv(s) && (s.b.pool == [] || !NeedsFlushForConstant(s.b, WORD_SIZE, WORD_SIZE))
    ensures Inv(DoAppendLoad(s, insn, constant, isReusable))
  {
    var t := DoAppendLoad(s, insn, constant, isReusable);
    AppendLoadKeepsLoads(s, insn, constant, isReusable);
    AppendLoadKeepsBudget(s, insn, constant, isReusable);
    forall k | 0 <= k < |t.roles| ensures RoleOk(t, k) {
      if k < |s.roles| { ExtensionKeepsRole(s, t, k); }
      else { assert t.waiting[|s.waiting|].at == k; }
    }
  }

  lemma AppendLoadKeepsBudget(s: State, insn: LoadInsn, constant: Word, isReusable: bool)
    requires Inv(s) && (s.b.pool == [] || !NeedsFlushForConstant(s.b, WORD_SIZE, WORD_SIZE))
    ensures Budget(DoAppendLoad(s, insn, constant, isReusable))
  {
    var t := DoAppendLoad(s, insn, constant, isReusable);
    var n := |s.waiting|;
    if n > 0 { assert Waits(s, s.waiting[n - 1]) && t.waiting[0] == s.waiting[0]; }
  }

  // ----- the invariant is kept: linking -----

  lemma CanLinkLoads(s: State)
    requires Inv(s)
    ensures forall i :: 0 <= i < |s.waiting| ==> CanLink(s.b, s.waiting[i].at)
    ensures forall i :: 0 <= i < |s.placed| ==> CanLink(s.b, s.placed[i].at)
  {
    forall i | 0 <= i < |s.waiting| ensures CanLink(s.b, s.waiting[i].at) { assert Waits(s, s.waiting[i]); }
    forall i | 0 <= i < |s.placed| ensures CanLink(s.b, s.placed[i].at) { assert Reads(s, s.placed[i]); }
  }

  function DoLinkWaiting(s: State, i: nat, target: Word): (r: State)
    requires i < |s.waiting| && CanLink(s.b, s.waiting[i].at)
  {
    s.(b := LinkJump(s.b, s.waiting[i].at, target),
       waiting := s.waiting[i := s.waiting[i].(constant := target)],
       linked := s.linked[s.waiting[i].at := target])
  }

  function DoLinkPlaced(s: State, i: nat, target: Word): (r: State)
    requires i < |s.placed| && CanLink(s.b, s.placed[i].at)
  {
    s.(b := LinkJump(s.b, s.placed[i].at, target),
       placed := s.placed[i := s.placed[i].(constant := target)],
       linked := s.linked[s.placed[i].at := target])
  }

  /** The words `s` and `t` differ in are constants, and the loads stand where they stood. */
  ghost predicate SameInstructions(s: State, t: State) {
    && |t.b.code| == |s.b.code| && t.roles == s.roles && |s.roles| == |s.b.code|
    && (forall k :: 0 <= k < |s.roles| && !s.roles[k].Constant? ==> t.b.code[k] == s.b.code[k])
    && |t.waiting| == |s.waiting| && (forall i :: 0 <= i < |s.waiting| ==> t.waiting[i].at == s.waiting[i].at)
    && |t.placed| == |s.placed| && (forall i :: 0 <= i < |s.placed| ==> t.placed[i].at == s.placed[i].at)
  }

  lemma SameInstructionsKeepRole(s: State, t: State, k: nat)
    requires SameInstructions(s, t) && k < |s.roles| && RoleOk(s, k)
    ensures RoleOk(t, k)
  {
    match s.roles[k]
    case Insn(Plain(_)) =>
    case Insn(WithConstant(_, _, _)) =>
      if i :| 0 <= i < |s.waiting| && s.waiting[i].at == k {
        assert t.waiting[i].at == k;
      } else {
        var i :| 0 <= i < |s.placed| && s.placed[i].at == k;
        assert t.placed[i].at == k;
      }
    case Barrier(end) =>
      assert forall i :: k < i < end ==> InPool(s.roles[i]) && t.roles[i] == s.roles[i];
    case Padding =>
    case Constant(_) =>
  }

  lemma LinkWaitingKeepsLoads(s: State, i: nat, target: Word)
    requires Shape(s) && Loads(s) && i < |s.waiting| && !s.waiting[i].isReusable && CanLink(s.b, s.waiting[i].at)
    ensures var t := DoLinkWaiting(s, i, target);
            Loads(t) && t.b == s.b.(pool := t.b.pool) && |t.b.pool| == |s.b.pool|
  {
    var t := DoLinkWaiting(s, i, target);
    assert Waits(s, s.waiting[i]);
    assert t.b == s.b.(pool := s.b.pool[s.waiting[i].slot := target]);
    forall j | 0 <= j < |t.waiting| ensures Waits(t, t.waiting[j]) { assert Waits(s, s.waiting[j]); }
    forall j | 0 <= j < |t.placed| ensures Reads(t, t.placed[j]) { assert Reads(s, s.placed[j]); }
  }

  lemma LinkWaitingKeepsInv(s: State, i: nat, target: Word)
    requires Inv(s) && i < |s.waiting| && !s.waiting[i].isReusable && CanLink(s.b, s.waiting[i].at)
    ensures Inv(DoLinkWaiting(s, i, target))
  {
    var t := DoLinkWaiting(s, i, target);
    LinkWaitingKeepsLoads(s, i, target);
    forall k | 0 <= k < |t.roles| ensures RoleOk(t, k) { SameInstructionsKeepRole(s, t, k); }
  }

  lemma LinkPlacedKeepsLoads(s: State, i: nat, target: Word)
    requires Shape(s) && Loads(s) && i < |s.placed| && !s.placed[i].isReusable && CanLink(s.b, s.placed[i].at)
    ensures var t := DoLinkPlaced(s, i, target);
            Loads(t) && SameInstructions(s, t) && t.b == s.b.(code := t.b.code)
  {
    var t := DoLinkPlaced(s, i, target);
    assert Reads(s, s.placed[i]);
    assert t.b == s.b.(code := s.b.code[s.placed[i].slot := target]);
    forall j | 0 <= j < |t.waiting| ensures Waits(t, t.waiting[j]) { assert Waits(s, s.waiting[j]); }
    forall j | 0 <= j < |t.placed| ensures Reads(t, t.placed[j]) { assert Reads(s, s.placed[j]); }
  }

  lemma LinkPlacedKeepsInv(s: State, i: nat, target: Word)
    requires Inv(s) && i < |s.placed| && !s.placed[i].isReusable && CanLink(s.b, s.placed[i].at)
    ensures Inv(DoLinkPlaced(s, i, target))
  {
    var t := DoLinkPlaced(s, i, target);
    LinkPlacedKeepsLoads(s, i, target);
    forall k | 0 <= k < |t.roles| ensures RoleOk(t, k) { SameInstructionsKeepRole(s, t, k); }
  }
}
