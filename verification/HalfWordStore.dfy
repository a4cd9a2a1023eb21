/** Stores of single bfloat16 elements into a buffer of packed words: the emitted `writeBF16Element`,
    its retry loop on `atomicCompSwap` and the plain variant, alone and in every interleaving. */
module HalfWordStore {
  import opened GlslUint
  import opened BFloat16
  import opened Wrappers

  // ----- one word, two halves -----

  /** The half-word at bit offset 16 * half. */
  function Half(w: uint32, half: nat): uint16 {
    if half == 0 then LowHalf(w) else HighHalf(w)
  }

  function Mask(half: nat): uint32
    requires half < 2
  {
    Shl(0xFFFF, half * 16)
  }

  /** The word the loop builds from the word it last saw. */
  function NewWord(oldWord: uint32, half: nat, bits: uint16): uint32
    requires half < 2
  {
    MergeHalf(oldWord, half, bits);
    Or(And(oldWord, Not(Mask(half))), Shl(bits, half * 16))
  }

  lemma MergeHalf(oldWord: uint32, half: nat, bits: uint16)
    requires half < 2
    ensures Or(And(oldWord, Not(Mask(half))), Shl(bits, half * 16))
            == if half == 0 then TWO16 * HighHalf(oldWord) + bits else TWO16 * bits + LowHalf(oldWord)
  {
    hide And, Or;
    ShiftBy16(0xFFFF);
    ShiftBy16(bits);
    AndMasks(oldWord);
    OrHalves(HighHalf(oldWord), bits);
    OrHalves(bits, LowHalf(oldWord));
  }

  /** A merged word has the new bits in its own half and the old ones in the other. */
  lemma NewWordHalves(oldWord: uint32, half: nat, bits: uint16)
    requires half < 2
    ensures Half(NewWord(oldWord, half, bits), half) == bits
    ensures Half(NewWord(oldWord, half, bits), 1 - half) == Half(oldWord, 1 - half)
  {
    hide And, Or, Shl;
    MergeHalf(oldWord, half, bits);
    JoinedHalves(HighHalf(oldWord), bits);
    JoinedHalves(bits, LowHalf(oldWord));
  }

  // ----- invocations that compete for one word -----

  const ATTEMPTS: nat := 1024

  datatype Variant = Atomic | Plain

  datatype Status = Ready | Looping | Landed | GaveUp

  /** One invocation of `writeBF16Element` on the word: the half it owns and the bits it stores, and
      the two variables of its loop. */
  datatype Invocation = Invocation(variant: Variant, half: nat, bits: uint16,
                                   status: Status, oldWord: uint32, attempt: nat)

  datatype World = World(word: uint32, invocations: seq<Invocation>)

  /** Invocation i reads the word into `old_word`, or runs one compare-and-swap of its loop, or, in the
      plain variant, writes back. */
  datatype Action = Load(i: nat) | CompSwap(i: nat) | Store(i: nat)

  predicate Enabled(w: World, a: Action) {
    && a.i < |w.invocations|
    && w.invocations[a.i].half < 2
    && match a
       case Load(i) => w.invocations[i].status.Ready?
       case CompSwap(i) => w.invocations[i].variant.Atomic? && w.invocations[i].status.Looping?
       case Store(i) => w.invocations[i].variant.Plain? && w.invocations[i].status.Looping?
  }

  /** One turn of the retry loop against a word. */
  function LoopTurn(word: uint32, me: Invocation): (uint32, Invocation)
    requires me.half < 2
  {
    if word == me.oldWord then
      (NewWord(me.oldWord, me.half, me.bits), me.(status := Landed))
    else
      (word, me.(oldWord := word, attempt := me.attempt + 1,
                 status := if me.attempt + 1 < ATTEMPTS then Looping else GaveUp))
  }

  function Next(w: World, a: Action): World
    requires Enabled(w, a)
  {
    var me := w.invocations[a.i];
    match a
    case Load(i) => w.(invocations := w.invocations[i := me.(status := Looping, oldWord := w.word, attempt := 0)])
    case CompSwap(i) =>
      var (word, me') := LoopTurn(w.word, me);
      World(word, w.invocations[i := me'])
    case Store(i) =>
      World(NewWord(me.oldWord, me.half, me.bits), w.invocations[i := me.(status := Landed)])
  }

  /** A run is valid when each of its actions is enabled where it happens. */
  ghost predicate ValidRun(w: World, run: seq<Action>)
    decreases |run|, 0
  {
    run == [] || (ValidRun(w, run[..|run| - 1]) && Enabled(After(w, run[..|run| - 1]), run[|run| - 1]))
  }

  /** The world after a run of actions. */
  ghost function After(w: World, run: seq<Action>): World
    requires ValidRun(w, run)
    decreases |run|, 1
  {
    if run == [] then w else Next(After(w, run[..|run| - 1]), run[|run| - 1])
  }

  /** The world before action k of a run. */
  ghost function At(w: World, run: seq<Action>, k: nat): World
    requires ValidRun(w, run) && k <= |run|
  {
    PrefixIsValid(w, run, k);
    After(w, run[..k])
  }

  lemma {:induction false} PrefixIsValid(w: World, run: seq<Action>, k: nat)
    requires ValidRun(w, run) && k <= |run|
    ensures ValidRun(w, run[..k])
    decreases |run|
  {
    if k == |run| {
      assert run[..k] == run;
    } else {
      PrefixIsValid(w, run[..|run| - 1], k);
      assert run[..|run| - 1][..k] == run[..k];
    }
  }

  lemma StepAt(w: World, run: seq<Action>, k: nat)
    requires ValidRun(w, run) && k < |run|
    ensures Enabled(At(w, run, k), run[k])
    ensures At(w, run, k + 1) == Next(At(w, run, k), run[k])
  {
    PrefixIsValid(w, run, k + 1);
    assert run[..k + 1][..k] == run[..k];
  }

  lemma AtEnds(w: World, run: seq<Action>)
    requires ValidRun(w, run)
    ensures At(w, run, 0) == w && At(w, run, |run|) == After(w, run)
  {
    assert run[..|run|] == run;
  }

  /** Before the shader stage: nobody has started. */
  ghost predicate Initial(w: World) {
    forall i | 0 <= i < |w.invocations| ::
      w.invocations[i].half < 2 && w.invocations[i].status.Ready? && w.invocations[i].attempt == 0
  }

  ghost predicate AllAtomic(w: World) {
    forall i | 0 <= i < |w.invocations| :: w.invocations[i].variant.Atomic?
  }

  /** Action k of the run puts its invocation's bits into the word. */
  ghost predicate Lands(w: World, run: seq<Action>, k: nat)
    requires ValidRun(w, run) && k < |run|
  {
    var before := At(w, run, k);
    StepAt(w, run, k);
    match run[k]
    case Load(i) => false
    case CompSwap(i) => before.word == before.invocations[i].oldWord
    case Store(i) => true
  }

  // ----- what every run keeps -----

  /** Who an invocation is does not change. */
  lemma {:induction false} IdentityStays(w: World, run: seq<Action>, k: nat, i: nat)
    requires ValidRun(w, run) && k <= |run| && i < |w.invocations|
    ensures |At(w, run, k).invocations| == |w.invocations|
    ensures var me := At(w, run, k).invocations[i];
            me.variant == w.invocations[i].variant && me.half == w.invocations[i].half && me.bits == w.invocations[i].bits
    decreases k
  {
    AtEnds(w, run);
    if k > 0 {
      IdentityStays(w, run, k - 1, i);
      StepAt(w, run, k - 1);
    }
  }

  /** A successful compare-and-swap changes only its own half; every other action of the atomic
      variant leaves the word alone. */
  lemma LandingChangesOwnHalfOnly(w: World, run: seq<Action>, k: nat)
    requires ValidRun(w, run) && k < |run| && AllAtomic(w)
    ensures run[k].i < |w.invocations| && w.invocations[run[k].i].half < 2
    ensures var me, before, after := w.invocations[run[k].i], At(w, run, k).word, At(w, run, k + 1).word;
            if Lands(w, run, k) then
              Half(after, me.half) == me.bits && Half(after, 1 - me.half) == Half(before, 1 - me.half)
            else after == before
  {
    StepAt(w, run, k);
    AtEnds(w, run);
    IdentityCount(w, run, k);
    var i := run[k].i;
    IdentityStays(w, run, k, i);
    var me := At(w, run, k).invocations[i];
    NewWordHalves(me.oldWord, me.half, me.bits);
  }

  lemma {:induction false} IdentityCount(w: World, run: seq<Action>, k: nat)
    requires ValidRun(w, run) && k <= |run|
    ensures |At(w, run, k).invocations| == |w.invocations|
    decreases k
  {
    AtEnds(w, run);
    if k > 0 {
      IdentityCount(w, run, k - 1);
      StepAt(w, run, k - 1);
    }
  }

  /** The bits of the last store that landed on a half within the first k actions, or the initial ones. */
  ghost function LastStored(w: World, run: seq<Action>, k: nat, half: nat): uint16
    requires ValidRun(w, run) && k <= |run|
    decreases k
  {
    if k == 0 then Half(w.word, half)
    else
      StepAt(w, run, k - 1);
      IdentityCount(w, run, k - 1);
      var me := w.invocations[run[k - 1].i];
      if Lands(w, run, k - 1) && me.half == half then me.bits else LastStored(w, run, k - 1, half)
  }

  /** In every interleaving each half holds what the last store that landed on it put there: no landed
      store is undone by a store to the other half. */
  lemma {:induction false} HalvesHoldLastStore(w: World, run: seq<Action>, k: nat, half: nat)
    requires ValidRun(w, run) && k <= |run| && AllAtomic(w) && half < 2
    ensures Half(At(w, run, k).word, half) == LastStored(w, run, k, half)
    decreases k
  {
    AtEnds(w, run);
    if k > 0 {
      HalvesHoldLastStore(w, run, k - 1, half);
      LandingChangesOwnHalfOnly(w, run, k - 1);
    }
  }

  /** A landed invocation has returned: it takes no further action. */
  lemma {:induction false} LandedStays(w: World, run: seq<Action>, t: nat, k: nat)
    requires ValidRun(w, run) && t < k <= |run| && Lands(w, run, t)
    ensures run[t].i < |At(w, run, k).invocations| && At(w, run, k).invocations[run[t].i].status.Landed?
    ensures forall s | t < s < k :: run[s].i != run[t].i
    decreases k
  {
    hide ValidRun, Enabled, Next, At, Lands;
    StepAt(w, run, k - 1);
    if t < k - 1 {
      LandedStays(w, run, t, k - 1);
      LandedStep(At(w, run, k - 1), run[k - 1], run[t].i);
    } else {
      LandingStep(w, run, t);
    }
  }

  lemma LandedStep(w: World, a: Action, i: nat)
    requires Enabled(w, a) && i < |w.invocations| && w.invocations[i].status.Landed?
    ensures a.i != i && i < |Next(w, a).invocations| && Next(w, a).invocations[i].status.Landed?
  {
  }

  lemma LandingStep(w: World, run: seq<Action>, k: nat)
    requires ValidRun(w, run) && k < |run| && Lands(w, run, k)
    ensures run[k].i < |At(w, run, k + 1).invocations| && At(w, run, k + 1).invocations[run[k].i].status.Landed?
  {
    hide ValidRun, At, NewWord;
    StepAt(w, run, k);
  }

  lemma LandsOnce(w: World, run: seq<Action>, t: nat, t': nat)
    requires ValidRun(w, run) && t < |run| && t' < |run| && Lands(w, run, t) && Lands(w, run, t')
    requires run[t].i == run[t'].i
    ensures t == t'
  {
    LandedStays(w, run, t, |run|);
    LandedStays(w, run, t', |run|);
  }

  // ----- failed attempts -----

  /** If the word differs between two moments, a store landed in between. */
  lemma {:induction false} WordMoved(w: World, run: seq<Action>, a: nat, b: nat) returns (t: nat)
    requires ValidRun(w, run) && a <= b <= |run| && AllAtomic(w)
    requires At(w, run, a).word != At(w, run, b).word
    ensures a <= t < b && Lands(w, run, t)
    decreases b
  {
    if a == b {
      assert false;
      t := a;
    } else {
      LandingChangesOwnHalfOnly(w, run, b - 1);
      if Lands(w, run, b - 1) {
        t := b - 1;
      } else {
        t := WordMoved(w, run, a, b - 1);
      }
    }
  }

  ghost predicate Rivals(w: World, run: seq<Action>, i: nat, blame: seq<nat>)
    requires ValidRun(w, run)
  {
    && (forall n | 0 <= n < |blame| :: blame[n] < |run| && Lands(w, run, blame[n]) && run[blame[n]].i != i)
    && (forall m, n | 0 <= m < n < |blame| :: blame[m] < blame[n])
  }

  /** The failed attempts of invocation i within the first k actions, one by one, are each due to a
      different store of another invocation that landed since i last saw the word. */
  lemma {:induction false} FailuresHaveRivals(w: World, run: seq<Action>, k: nat, i: nat)
    returns (blame: seq<nat>, seen: nat)
    requires ValidRun(w, run) && k <= |run| && Initial(w) && AllAtomic(w) && i < |w.invocations|
    ensures |At(w, run, k).invocations| == |w.invocations|
    ensures |blame| == At(w, run, k).invocations[i].attempt
    ensures Rivals(w, run, i, blame)
    ensures forall n | 0 <= n < |blame| :: blame[n] < k
    ensures At(w, run, k).invocations[i].status.Looping? ==>
              && seen <= k && At(w, run, seen).word == At(w, run, k).invocations[i].oldWord
              && forall n | 0 <= n < |blame| :: blame[n] < seen
    decreases k
  {
    hide NewWord, Half, Lands, At, ValidRun;
    AtEnds(w, run);
    IdentityCount(w, run, k);
    if k == 0 {
      blame, seen := [], 0;
      return;
    }
    StepAt(w, run, k - 1);
    IdentityStays(w, run, k - 1, i);
    blame, seen := FailuresHaveRivals(w, run, k - 1, i);
    var before := At(w, run, k - 1);
    if run[k - 1].i == i {
      if run[k - 1].Load? {
        blame, seen := [], k - 1;
      } else if before.word != before.invocations[i].oldWord {
        var t := WordMoved(w, run, seen, k - 1);
        if run[t].i == i {
          LandedStays(w, run, t, k - 1);
          assert false;
        }
        blame, seen := blame + [t], k - 1;
      }
    }
  }

  /** The loop's counter and status agree, and each turn is one compare-and-swap. */
  lemma {:induction false} TurnsAreCounted(w: World, run: seq<Action>, k: nat, i: nat)
    requires ValidRun(w, run) && k <= |run| && Initial(w) && AllAtomic(w) && i < |w.invocations|
    ensures |At(w, run, k).invocations| == |w.invocations|
    ensures var me := At(w, run, k).invocations[i];
            && (me.status.GaveUp? <==> me.attempt == ATTEMPTS)
            && me.attempt <= ATTEMPTS
            && CompSwaps(run[..k], i) == me.attempt + (if me.status.Landed? then 1 else 0)
            && (me.status.Ready? ==> me.attempt == 0)
    decreases k
  {
    hide NewWord, Half, ValidRun;
    AtEnds(w, run);
    if k > 0 {
      TurnsAreCounted(w, run, k - 1, i);
      IdentityStays(w, run, k - 1, i);
      StepAt(w, run, k - 1);
      assert run[..k][..k - 1] == run[..k - 1];
    }
  }

  /** How often invocation i ran a compare-and-swap. */
  ghost function CompSwaps(run: seq<Action>, i: nat): nat {
    if run == [] then 0
    else CompSwaps(run[..|run| - 1], i) + (if run[|run| - 1] == CompSwap(i) then 1 else 0)
  }

  /** Each invocation returns within 1024 of its own turns, whatever the others do. */
  lemma LoopIsBounded(w: World, run: seq<Action>, i: nat)
    requires ValidRun(w, run) && Initial(w) && AllAtomic(w) && i < |w.invocations|
    ensures CompSwaps(run, i) <= 1024
    ensures |After(w, run).invocations| == |w.invocations|
    ensures CompSwaps(run, i) == 1024 ==>
              After(w, run).invocations[i].status.Landed? || After(w, run).invocations[i].status.GaveUp?
  {
    AtEnds(w, run);
    TurnsAreCounted(w, run, |run|, i);
    assert run[..|run|] == run;
  }

  lemma {:induction false} DistinctFit(s: seq<nat>, pool: set<nat>)
    requires Distinct(s) && forall n | 0 <= n < |s| :: s[n] in pool
    ensures |s| <= |pool|
    decreases |s|
  {
    if s != [] {
      DistinctFit(s[1..], pool - {s[0]});
    }
  }

  lemma {:induction false} Below(n: nat) returns (pool: set<nat>)
    ensures |pool| == n && forall i: nat :: i in pool <==> i < n
    decreases n
  {
    if n == 0 {
      pool := {};
    } else {
      pool := Below(n - 1);
      pool := pool + {n - 1};
    }
  }

  /** Giving up takes 1024 landed stores of other invocations, all of them different invocations. */
  lemma GivingUpNeedsRivals(w: World, run: seq<Action>, i: nat) returns (blame: seq<nat>)
    requires ValidRun(w, run) && Initial(w) && AllAtomic(w) && i < |w.invocations|
    requires |After(w, run).invocations| == |w.invocations| && After(w, run).invocations[i].status.GaveUp?
    ensures |blame| == 1024 && Rivals(w, run, i, blame)
    ensures forall m, n | 0 <= m < n < |blame| :: run[blame[m]].i != run[blame[n]].i
    ensures |w.invocations| > 1024
  {
    AtEnds(w, run);
    TurnsAreCounted(w, run, |run|, i);
    var seen;
    blame, seen := FailuresHaveRivals(w, run, |run|, i);
    RivalsAreDistinct(w, run, i, blame);
    var owners: seq<nat> := seq(|blame|, n requires 0 <= n < |blame| => run[blame[n]].i);
    var pool := Below(|w.invocations|);
    forall n | 0 <= n < |owners| ensures owners[n] in pool - {i} {
      StepAt(w, run, blame[n]);
      IdentityCount(w, run, blame[n]);
    }
    DistinctFit(owners, pool - {i});
  }

  lemma RivalsAreDistinct(w: World, run: seq<Action>, i: nat, blame: seq<nat>)
    requires ValidRun(w, run) && Rivals(w, run, i, blame)
    ensures forall m, n | 0 <= m < n < |blame| :: run[blame[m]].i != run[blame[n]].i
  {
    forall m, n | 0 <= m < n < |blame| ensures run[blame[m]].i != run[blame[n]].i {
      if run[blame[m]].i == run[blame[n]].i {
        LandsOnce(w, run, blame[m], blame[n]);
      }
    }
  }

  ghost predicate OneWriterPerHalf(w: World) {
    forall i, j | 0 <= i < j < |w.invocations| :: w.invocations[i].half != w.invocations[j].half
  }

  ghost predicate AllReturned(w: World) {
    forall i | 0 <= i < |w.invocations| :: w.invocations[i].status.Landed? || w.invocations[i].status.GaveUp?
  }

  /** With at most one writer per half nobody gives up, and once all have returned each written half
      holds its writer's bits and an unwritten half its initial ones. */
  lemma NoStoreIsLost(w: World, run: seq<Action>)
    requires ValidRun(w, run) && Initial(w) && AllAtomic(w) && OneWriterPerHalf(w)
    ensures |After(w, run).invocations| == |w.invocations|
    ensures forall i | 0 <= i < |w.invocations| :: !After(w, run).invocations[i].status.GaveUp?
    ensures AllReturned(After(w, run)) ==>
              && (forall i | 0 <= i < |w.invocations| ::
                    Half(After(w, run).word, w.invocations[i].half) == w.invocations[i].bits)
              && (forall half | 0 <= half < 2 && Unwritten(w, half) ::
                    Half(After(w, run).word, half) == Half(w.word, half))
  {
    AtEnds(w, run);
    IdentityCount(w, run, |run|);
    var end := After(w, run);
    var halves: seq<nat> := seq(|w.invocations|, i requires 0 <= i < |w.invocations| => w.invocations[i].half);
    DistinctFit(halves, {0, 1});
    forall i | 0 <= i < |w.invocations| ensures !end.invocations[i].status.GaveUp? {
      if end.invocations[i].status.GaveUp? {
        var blame := GivingUpNeedsRivals(w, run, i);
      }
    }
    forall half: nat | half < 2 && Unwritten(w, half) ensures Half(end.word, half) == Half(w.word, half) {
      HalvesHoldLastStore(w, run, |run|, half);
      LastStoredOfUnwritten(w, run, |run|, half);
    }
    forall i | 0 <= i < |w.invocations| && end.invocations[i].status.Landed?
      ensures Half(end.word, w.invocations[i].half) == w.invocations[i].bits
    {
      HalvesHoldLastStore(w, run, |run|, w.invocations[i].half);
      LastStoredOfOnlyWriter(w, run, |run|, i);
    }
  }

  ghost predicate Unwritten(w: World, half: nat) {
    forall i | 0 <= i < |w.invocations| :: w.invocations[i].half != half
  }

  lemma {:induction false} LastStoredOfUnwritten(w: World, run: seq<Action>, k: nat, half: nat)
    requires ValidRun(w, run) && k <= |run| && Unwritten(w, half)
    ensures LastStored(w, run, k, half) == Half(w.word, half)
    decreases k
  {
    if k > 0 {
      LastStoredOfUnwritten(w, run, k - 1, half);
      StepAt(w, run, k - 1);
      IdentityCount(w, run, k - 1);
    }
  }

  lemma {:induction false} LastStoredOfOnlyWriter(w: World, run: seq<Action>, k: nat, i: nat)
    requires ValidRun(w, run) && k <= |run| && Initial(w) && OneWriterPerHalf(w) && i < |w.invocations|
    ensures |At(w, run, k).invocations| == |w.invocations|
    ensures At(w, run, k).invocations[i].status.Landed? ==>
              LastStored(w, run, k, w.invocations[i].half) == w.invocations[i].bits
    decreases k
  {
    AtEnds(w, run);
    IdentityCount(w, run, k);
    if k > 0 {
      LastStoredOfOnlyWriter(w, run, k - 1, i);
      StepAt(w, run, k - 1);
      IdentityCount(w, run, k - 1);
    }
  }

  // ----- the plain variant -----

  ghost predicate AllPlain(w: World) {
    forall i | 0 <= i < |w.invocations| :: w.invocations[i].variant.Plain?
  }

  /** The life of a plain invocation up to moment k: nothing, a load, or a load and the store of what was built
      from the word it loaded. */
  lemma {:induction false} PlainLife(w: World, run: seq<Action>, k: nat, i: nat) returns (l: nat, s: nat)
    requires ValidRun(w, run) && k <= |run| && Initial(w) && AllPlain(w) && i < |w.invocations|
    ensures i < |At(w, run, k).invocations|
    ensures var me := At(w, run, k).invocations[i];
            match me.status
            case Ready => forall t | 0 <= t < k :: run[t].i != i
            case Looping =>
              && l < k && run[l] == Load(i) && (forall t | 0 <= t < k && run[t].i == i :: t == l)
              && me.oldWord == At(w, run, l).word
            case Landed =>
              && l < s < k && run[l] == Load(i) && run[s] == Store(i)
              && (forall t | 0 <= t < k && run[t].i == i :: t == l || t == s)
              && i < |At(w, run, s).invocations| && At(w, run, s).invocations[i].oldWord == At(w, run, l).word
            case GaveUp => false
    decreases k
  {
    hide ValidRun, After, At, NewWord, Half;
    AtEnds(w, run);
    IdentityStays(w, run, k, i);
    l, s := 0, 0;
    if k > 0 {
      l, s := PlainLife(w, run, k - 1, i);
      StepAt(w, run, k - 1);
      IdentityStays(w, run, k - 1, i);
      if run[k - 1].i == i {
        if run[k - 1].Load? {
          l := k - 1;
        } else {
          s := k - 1;
        }
      }
    }
  }

  /** Without a store in between the word of plain invocations stays. */
  lemma {:induction false} PlainWordStays(w: World, run: seq<Action>, a: nat, b: nat)
    requires ValidRun(w, run) && a <= b <= |run| && AllPlain(w)
    requires forall t | a <= t < b :: !run[t].Store?
    ensures At(w, run, b).word == At(w, run, a).word
    decreases b
  {
    if a < b {
      PlainWordStays(w, run, a, b - 1);
      StepAt(w, run, b - 1);
      IdentityCount(w, run, b - 1);
      IdentityStays(w, run, b - 1, run[b - 1].i);
    }
  }

  /** The word right after the store of a plain invocation that loaded at l. */
  lemma PlainStoreWrites(w: World, run: seq<Action>, l: nat, s: nat, i: nat)
    requires ValidRun(w, run) && Initial(w) && AllPlain(w) && i < |w.invocations| && l < s < |run| && run[s] == Store(i)
    requires i < |At(w, run, s).invocations| && At(w, run, s).invocations[i].oldWord == At(w, run, l).word
    ensures var me := w.invocations[i];
            && Half(At(w, run, s + 1).word, me.half) == me.bits
            && Half(At(w, run, s + 1).word, 1 - me.half) == Half(At(w, run, l).word, 1 - me.half)
  {
    hide NewWord;
    StepAt(w, run, s);
    IdentityStays(w, run, s, i);
    NewWordHalves(At(w, run, l).word, w.invocations[i].half, w.invocations[i].bits);
  }

  /** Two plain writers, the second one storing last: the first one's bits stay exactly if the second one loaded
      behind the first one's store, or the bits were there already. */
  lemma LaterStoreDecides(w: World, run: seq<Action>, i: nat, l: nat, s: nat, j: nat, l': nat, s': nat)
    requires ValidRun(w, run) && Initial(w) && AllPlain(w) && OneWriterPerHalf(w)
    requires i < |w.invocations| && j < |w.invocations| && i != j && |w.invocations| == 2
    requires l < s < s' < |run| && l' < s' && run[s] == Store(i) && run[s'] == Store(j)
    requires forall t | 0 <= t < |run| && run[t].Store? :: t == s || t == s'
    requires i < |At(w, run, s).invocations| && At(w, run, s).invocations[i].oldWord == At(w, run, l).word
    requires j < |At(w, run, s').invocations| && At(w, run, s').invocations[j].oldWord == At(w, run, l').word
    requires l' != s
    ensures Half(After(w, run).word, w.invocations[j].half) == w.invocations[j].bits
    ensures Half(After(w, run).word, w.invocations[i].half)
            == if l' < s then Half(w.word, w.invocations[i].half) else w.invocations[i].bits
  {
    hide ValidRun, After, At, Next, Enabled, Half, NewWord;
    AtEnds(w, run);
    PlainStoreWrites(w, run, l', s', j);
    PlainWordStays(w, run, s' + 1, |run|);
    HalvesAreBoth(w, i, j);
    if l' < s {
      PlainWordStays(w, run, 0, l');
    } else {
      PlainStoreWrites(w, run, l, s, i);
      PlainWordStays(w, run, s + 1, l');
    }
  }

  lemma HalvesAreBoth(w: World, i: nat, j: nat)
    requires Initial(w) && OneWriterPerHalf(w) && i < |w.invocations| && j < |w.invocations| && i != j
    ensures w.invocations[i].half == 1 - w.invocations[j].half
  {
    if i < j {
      assert w.invocations[i].half != w.invocations[j].half;
    } else {
      assert w.invocations[j].half != w.invocations[i].half;
    }
  }

  /** A store that falls between another invocation's load and store writes what the word held all along. */
  ghost predicate HarmlessBetween(w: World, run: seq<Action>, l: nat, t: nat, s: nat) {
    && l < t < s < |run| && run[l].Load? && run[s] == Store(run[l].i) && run[t].Store? && run[t].i != run[l].i
    ==> run[t].i < |w.invocations|
        && var me := w.invocations[run[t].i]; me.half < 2 && Half(w.word, me.half) == me.bits
  }

  ghost predicate AllLanded(w: World, end: World) {
    forall i | 0 <= i < |w.invocations| :: w.invocations[i].half < 2 && Half(end.word, w.invocations[i].half) == w.invocations[i].bits
  }

  lemma AtMostTwo(w: World)
    requires Initial(w) && OneWriterPerHalf(w)
    ensures |w.invocations| <= 2
  {
    var halves: seq<nat> := seq(|w.invocations|, i requires 0 <= i < |w.invocations| => w.invocations[i].half);
    DistinctFit(halves, {0, 1});
  }

  /** Exactly when plain writers, one per half, lose no store: every store that falls between the load and the
      store of the other writer writes bits that were there already. */
  lemma PlainStoresLandExactly(w: World, run: seq<Action>)
    requires ValidRun(w, run) && Initial(w) && AllPlain(w) && OneWriterPerHalf(w) && AllReturned(After(w, run))
    ensures AllLanded(w, After(w, run)) <==> forall a: nat, t: nat, b: nat :: HarmlessBetween(w, run, a, t, b)
  {
    hide ValidRun, After, At, NewWord, Half, Next, Enabled;
    AtMostTwo(w);
    AtEnds(w, run);
    IdentityCount(w, run, |run|);
    ActionsAreOf(w, run);
    if |w.invocations| == 1 {
      var l, s := PlainLife(w, run, |run|, 0);
      PlainStoreWrites(w, run, l, s, 0);
      PlainWordStays(w, run, s + 1, |run|);
    } else if |w.invocations| == 2 {
      var l0, s0 := PlainLife(w, run, |run|, 0);
      var l1, s1 := PlainLife(w, run, |run|, 1);
      if s0 < s1 {
        TwoWriters(w, run, 0, l0, s0, 1, l1, s1);
      } else {
        TwoWriters(w, run, 1, l1, s1, 0, l0, s0);
      }
    }
  }

  lemma ActionsAreOf(w: World, run: seq<Action>)
    requires ValidRun(w, run)
    ensures forall t | 0 <= t < |run| :: run[t].i < |w.invocations|
  {
    forall t | 0 <= t < |run| ensures run[t].i < |w.invocations| {
      StepAt(w, run, t);
      IdentityCount(w, run, t);
    }
  }

  lemma TwoWriters(w: World, run: seq<Action>, i: nat, l: nat, s: nat, j: nat, l': nat, s': nat)
    requires ValidRun(w, run) && Initial(w) && AllPlain(w) && OneWriterPerHalf(w)
    requires i < 2 && j < 2 && i != j && |w.invocations| == 2
    requires l < s < s' < |run| && l' < s' && run[l] == Load(i) && run[s] == Store(i) && run[l'] == Load(j) && run[s'] == Store(j)
    requires forall t | 0 <= t < |run| :: run[t].i < 2
    requires forall t | 0 <= t < |run| && run[t].i == i :: t == l || t == s
    requires forall t | 0 <= t < |run| && run[t].i == j :: t == l' || t == s'
    requires i < |At(w, run, s).invocations| && At(w, run, s).invocations[i].oldWord == At(w, run, l).word
    requires j < |At(w, run, s').invocations| && At(w, run, s').invocations[j].oldWord == At(w, run, l').word
    ensures AllLanded(w, After(w, run)) <==> forall a: nat, t: nat, b: nat :: HarmlessBetween(w, run, a, t, b)
  {
    hide ValidRun, After, At, NewWord, Half, Next, Enabled;
    LaterStoreDecides(w, run, i, l, s, j, l', s');
    if l' < s {
      OnlyOneBetween(w, run, i, l, s, j, l', s');
      assert HarmlessBetween(w, run, l', s, s') <==> Half(w.word, w.invocations[i].half) == w.invocations[i].bits;
    } else {
      NoneBetween(w, run, i, l, s, j, l', s');
    }
  }

  lemma OnlyOneBetween(w: World, run: seq<Action>, i: nat, l: nat, s: nat, j: nat, l': nat, s': nat)
    requires i < 2 && j < 2 && i != j && l < s < s' < |run| && l' < s
    requires run[l] == Load(i) && run[s] == Store(i) && run[l'] == Load(j) && run[s'] == Store(j)
    requires forall t | 0 <= t < |run| :: run[t].i < 2
    requires forall t | 0 <= t < |run| && run[t].i == i :: t == l || t == s
    requires forall t | 0 <= t < |run| && run[t].i == j :: t == l' || t == s'
    ensures (forall a: nat, t: nat, b: nat :: HarmlessBetween(w, run, a, t, b)) <==> HarmlessBetween(w, run, l', s, s')
  {
    forall a: nat, t: nat, b: nat | HarmlessBetween(w, run, l', s, s') ensures HarmlessBetween(w, run, a, t, b) {
      if a < t < b < |run| && run[a].Load? && run[b] == Store(run[a].i) && run[t].Store? && run[t].i != run[a].i {
        assert run[a].i == j && a == l' && t == s && b == s';
      }
    }
  }

  lemma NoneBetween(w: World, run: seq<Action>, i: nat, l: nat, s: nat, j: nat, l': nat, s': nat)
    requires i < 2 && j < 2 && i != j && l < s < s' < |run| && s <= l' < s'
    requires run[l] == Load(i) && run[s] == Store(i) && run[l'] == Load(j) && run[s'] == Store(j)
    requires forall t | 0 <= t < |run| :: run[t].i < 2
    requires forall t | 0 <= t < |run| && run[t].i == i :: t == l || t == s
    requires forall t | 0 <= t < |run| && run[t].i == j :: t == l' || t == s'
    ensures forall a: nat, t: nat, b: nat :: HarmlessBetween(w, run, a, t, b)
  {
  }

  /** Two plain writers of different halves can lose a store: the retry loop is needed. */
  lemma PlainWritersCanLoseAStore() returns (w: World, run: seq<Action>)
    ensures Initial(w) && OneWriterPerHalf(w) && ValidRun(w, run) && AllReturned(After(w, run))
    ensures |w.invocations| == 2 && Half(After(w, run).word, w.invocations[0].half) != w.invocations[0].bits
  {
    hide NewWord;
    var low := Invocation(Plain, 0, 7, Ready, 0, 0);
    var high := Invocation(Plain, 1, 9, Ready, 0, 0);
    w, run := World(0, [low, high]), [Load(0), Load(1), Store(0), Store(1)];
    NewWordHalves(0, 1, 9);
    Extend(w, [], Load(0));
    Extend(w, [Load(0)], Load(1));
    Extend(w, [Load(0), Load(1)], Store(0));
    Extend(w, [Load(0), Load(1), Store(0)], Store(1));
    assert [] + [Load(0)] == [Load(0)] && [Load(0)] + [Load(1)] == [Load(0), Load(1)];
    assert [Load(0), Load(1)] + [Store(0)] == [Load(0), Load(1), Store(0)];
    assert [Load(0), Load(1), Store(0)] + [Store(1)] == run;
  }

  lemma Extend(w: World, run: seq<Action>, a: Action)
    requires ValidRun(w, run) && Enabled(After(w, run), a)
    ensures ValidRun(w, run + [a]) && After(w, run + [a]) == Next(After(w, run), a)
  {
    assert (run + [a])[..|run|] == run;
  }

  // ----- the emitted function on a buffer -----

  /** The word as rival invocations leave it before attempt k: unchanged, or replaced. */
  datatype Rival = Quiet | Wrote(word: uint32)

  function Seen(word: uint32, rival: Rival): uint32 {
    match rival case Quiet => word case Wrote(v) => v
  }

  /** The loop from a given attempt on, against what rivals do before each turn. */
  function LoopOutcome(word: uint32, me: Invocation, rivals: nat -> Rival): (uint32, Invocation)
    requires me.half < 2 && me.attempt < ATTEMPTS && me.status.Looping?
    decreases ATTEMPTS - me.attempt
  {
    hide NewWord;
    var (word', me') := LoopTurn(Seen(word, rivals(me.attempt)), me);
    if me'.status.Looping? then LoopOutcome(word', me', rivals) else (word', me')
  }

  /** `writeBF16Element` with the compare-and-swap loop. `rivals(k)` is what other invocations did to
      the word since this one last looked, just before attempt k. */
  method WriteElementAtomic(words: array<uint32>, idx: nat, val: uint32, rivals: nat -> Rival)
    returns (landed: bool)
    requires idx / 2 < words.Length
    modifies words
    ensures var half, old0 := idx % 2, old(words[idx / 2]);
            RoundBits(val) < TWO16
            && (words[idx / 2], landed)
               == var (word, me) := LoopOutcome(old0, Invocation(Atomic, half, RoundBits(val), Looping, old0, 0), rivals);
                  (word, me.status.Landed?)
    ensures landed ==> Half(words[idx / 2], idx % 2) == RoundBits(val)
    ensures !landed ==> forall k | 0 < k < 1024 :: rivals(k).Wrote?
    ensures forall k | 0 <= k < words.Length && k != idx / 2 :: words[k] == old(words[k])
  {
    hide NewWord, Half, RoundBits;
    var word_idx := idx / 2;
    var half := idx % 2;
    RoundBitsIs(val);
    var new_bits: uint16 := RoundBits(val);
    var old_word := words[word_idx];
    ghost var goal := LoopOutcome(old_word, Invocation(Atomic, half, new_bits, Looping, old_word, 0), rivals);
    LoopLandsUnlessDisturbed(old_word, Invocation(Atomic, half, new_bits, Looping, old_word, 0), rivals);
    var attempt := 0;
    while attempt < ATTEMPTS
      invariant 0 <= attempt <= ATTEMPTS
      invariant attempt < ATTEMPTS ==>
                  goal == LoopOutcome(words[word_idx], Invocation(Atomic, half, new_bits, Looping, old_word, attempt), rivals)
      invariant attempt == ATTEMPTS ==>
                  goal == (words[word_idx], Invocation(Atomic, half, new_bits, GaveUp, old_word, attempt))
      invariant forall k | 0 <= k < words.Length && k != word_idx :: words[k] == old(words[k])
    {
      words[word_idx] := Seen(words[word_idx], rivals(attempt));
      var new_word := NewWord(old_word, half, new_bits);
      var r := words[word_idx];
      if r == old_word {
        words[word_idx] := new_word;
        NewWordHalves(old_word, half, new_bits);
        return true;
      }
      old_word := r;
      attempt := attempt + 1;
    }
    landed := false;
  }

  /** Alone the loop lands at its first attempt and changes nothing but its half-word. */
  lemma AloneTheFirstAttemptLands(word: uint32, half: nat, bits: uint16)
    requires half < 2
    ensures var (word', me) := LoopOutcome(word, Invocation(Atomic, half, bits, Looping, word, 0), _ => Quiet);
            me.status.Landed? && me.attempt == 0
            && Half(word', half) == bits && Half(word', 1 - half) == Half(word, 1 - half)
  {
    hide NewWord, Half;
    NewWordHalves(word, half, bits);
  }

  /** Against any rivals: a landed store leaves the other half as the last rival left it, and the loop
      fails only if the word was different from what it last saw before every single attempt. */
  lemma {:induction false} LoopLandsUnlessDisturbed(word: uint32, me: Invocation, rivals: nat -> Rival)
    requires me.half < 2 && me.attempt < ATTEMPTS && me.status.Looping?
    ensures var (word', me') := LoopOutcome(word, me, rivals);
            && (me'.status.Landed? || me'.status.GaveUp?)
            && (me'.status.Landed? ==>
                  Half(word', me.half) == me.bits && Half(word', 1 - me.half) == Half(me'.oldWord, 1 - me.half))
            && (me'.status.GaveUp? ==>
                  me.oldWord != Seen(word, rivals(me.attempt))
                  && forall k | me.attempt < k < 1024 :: rivals(k).Wrote?)
    decreases ATTEMPTS - me.attempt
  {
    hide NewWord, Half;
    NewWordHalves(me.oldWord, me.half, me.bits);
    var (word1, me1) := LoopTurn(Seen(word, rivals(me.attempt)), me);
    if me1.status.Looping? {
      LoopLandsUnlessDisturbed(word1, me1, rivals);
    }
  }

  /** The variant without a loop: read, merge, write back. */
  method WriteElementPlain(words: array<uint32>, idx: nat, val: uint32)
    requires idx / 2 < words.Length
    modifies words
    ensures RoundBits(val) < TWO16
    ensures Half(words[idx / 2], idx % 2) == RoundBits(val)
    ensures Half(words[idx / 2], 1 - idx % 2) == old(Half(words[idx / 2], 1 - idx % 2))
    ensures forall k | 0 <= k < words.Length && k != idx / 2 :: words[k] == old(words[k])
  {
    hide RoundBits, And, Or, Shl;
    var pair_idx := idx / 2;
    var offset := idx % 2;
    RoundBitsIs(val);
    var bits: uint16 := RoundBits(val);
    if offset == 0 {
      PlainMergeLow(words[pair_idx], bits);
      var existing: uint32 := And(words[pair_idx], 0xFFFF_0000);
      words[pair_idx] := Or(existing, bits);
    } else {
      PlainMergeHigh(words[pair_idx], bits);
      var existing: uint32 := And(words[pair_idx], 0x0000_FFFF);
      words[pair_idx] := Or(existing, Shl(bits, 16));
    }
  }

  lemma PlainMergeLow(w: uint32, bits: uint16)
    ensures And(w, 0xFFFF_0000) < TWO32
    ensures Or(And(w, 0xFFFF_0000), bits) == TWO16 * HighHalf(w) + bits < TWO32
    ensures LowHalf(TWO16 * HighHalf(w) + bits) == bits && HighHalf(TWO16 * HighHalf(w) + bits) == HighHalf(w)
  {
    hide And, Or;
    AndMasks(w);
    var hi := HighHalf(w);
    OrHalves(hi, bits);
    JoinedHalves(hi, bits);
  }

  lemma PlainMergeHigh(w: uint32, bits: uint16)
    ensures And(w, 0x0000_FFFF) < TWO32
    ensures Or(And(w, 0x0000_FFFF), Shl(bits, 16)) == TWO16 * bits + LowHalf(w) < TWO32
    ensures LowHalf(TWO16 * bits + LowHalf(w)) == LowHalf(w) && HighHalf(TWO16 * bits + LowHalf(w)) == bits
  {
    hide And, Or, Shl;
    AndMasks(w);
    ShiftBy16(bits);
    var lo := LowHalf(w);
    OrHalves(bits, lo);
    JoinedHalves(bits, lo);
  }

  /** What the emitted reader finds in a half is what the last store rounded to, whatever word the store was
      merged into; the other half reads as before. */
  lemma ReadBack(oldWord: uint32, half: nat, val: uint32)
    requires half < 2
    ensures RoundBits(val) < TWO16
    ensures var w := NewWord(oldWord, half, RoundBits(val));
            ReadBF16(w, half) == Widen(RoundBits(val)) && ReadBF16(w, 1 - half) == ReadBF16(oldWord, 1 - half)
  {
    hide ReadBF16, Widen, And, Or, Shl, Shr, Add, NewWord, RoundBits;
    RoundBitsIs(val);
    var w := NewWord(oldWord, half, RoundBits(val));
    NewWordHalves(oldWord, half, RoundBits(val));
    ReadIsHalf(w, half);
    ReadIsHalf(w, 1 - half);
    ReadIsHalf(oldWord, 1 - half);
  }

  lemma ReadIsHalf(w: uint32, half: nat)
    requires half < 2
    ensures ReadBF16(w, half) == Widen(Half(w, half))
  {
    ReadAgreesWithUnpack(w);
  }
}
