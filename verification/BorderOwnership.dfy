/** Who keeps a storage alive at the borders to NumPy and PyTorch: counted holders on the way out, DLPack
    handles on the way in. Every change of a count is one atomic step, so a run is any interleaving. */
module BorderOwnership {
  import opened Wrappers

  /** A lost ticket is the reference an export took before making its capsule or blob threw; nobody drops it. */
  datatype Kind = TensorHandle | NumpyCapsule | TorchBlob | LostTicket

  datatype Holder = Holder(kind: Kind, storage: nat)

  /** A storage with its count and the number of times it was freed. One that wraps an imported buffer runs
      the handle's deleter when it is freed, but only if its data pointer is not null. */
  datatype Storage = Storage(count: int, frees: nat, handle: Option<nat>, nullData: bool)

  /** How an import without target device went: PyTorch made no handle; the importer threw before a storage took
      the handle's deleter, or after; it copied a strided buffer; or it wrapped the buffer. */
  datatype Import = NoHandle | Rejected | ThrewLate(nullData: bool) | Copied | Wrapped(nullData: bool)

  /** A handle, what became of its import, and how often its deleter ran. */
  datatype Handle = Handle(result: Import, releases: nat)

  datatype Ledger = Ledger(storages: map<nat, Storage>, holders: map<nat, Holder>, handles: map<nat, Handle>, next: nat)

  const EMPTY := Ledger(map[], map[], map[], 0)

  datatype Action = Allocate | Share(holder: nat, kind: Kind) | Drop(holder: nat) | FromTorch(result: Import)

  predicate Enabled(l: Ledger, a: Action) {
    match a
    case Share(h, _) => h in l.holders && l.holders[h].storage in l.storages
    case Drop(h) => h in l.holders && l.holders[h].storage in l.storages && l.holders[h].kind != LostTicket
    case _ => true
  }

  // ----- the steps -----

  function AddStorage(l: Ledger, s: Storage): Ledger {
    l.(storages := l.storages[l.next := s], holders := l.holders[l.next := Holder(TensorHandle, l.next)], next := l.next + 1)
  }

  function FreshStorage(): Storage { Storage(1, 0, None, false) }

  function MakeHandle(l: Ledger, result: Import): Ledger {
    l.(handles := l.handles[l.next := Handle(result, 0)])
  }

  function RunDeleter(l: Ledger, k: nat): Ledger {
    if k !in l.handles then l
    else l.(handles := l.handles[k := l.handles[k].(releases := l.handles[k].releases + 1)])
  }

  /** One reference less; the last one frees the storage. */
  function DropRef(l: Ledger, s: nat): Ledger
    requires s in l.storages
  {
    var x := l.storages[s];
    if x.count == 1 then
      var freed := l.(storages := l.storages[s := x.(count := 0, frees := x.frees + 1)]);
      if x.nullData || x.handle.None? then freed else RunDeleter(freed, x.handle.value)
    else l.(storages := l.storages[s := x.(count := x.count - 1)])
  }

  /** The importer fails behind the storage: leaving it drops the storage's only reference. */
  function FailBehindStorage(l: Ledger, nullData: bool): Ledger {
    var made := l.(storages := l.storages[l.next := Storage(1, 0, Some(l.next), nullData)]);
    DropRef(made, l.next)
  }

  function Step(l: Ledger, a: Action): Ledger
    requires Enabled(l, a)
  {
    match a
    case Allocate => AddStorage(l, FreshStorage())
    case Share(h, kind) =>
      var s := l.holders[h].storage;
      var x := l.storages[s];
      l.(storages := l.storages[s := x.(count := x.count + 1)], holders := l.holders[l.next := Holder(kind, s)], next := l.next + 1)
    case Drop(h) => DropRef(l.(holders := l.holders - {h}), l.holders[h].storage)
    case FromTorch(result) =>
      var made := MakeHandle(l, result);
      match result
      case NoHandle => l
      case Rejected => RunDeleter(made, l.next).(next := l.next + 1)
      case ThrewLate(nullData) => RunDeleter(FailBehindStorage(made, nullData), l.next).(next := l.next + 1)
      case Copied => AddStorage(RunDeleter(made, l.next), FreshStorage())
      case Wrapped(nullData) => AddStorage(made, Storage(1, 0, Some(l.next), nullData))
  }

  // ----- the steps as they change the objects -----

  class Border {
    var storages: map<nat, Storage>
    var holders: map<nat, Holder>
    var handles: map<nat, Handle>
    var next: nat

    ghost function State(): Ledger
      reads this
    {
      Ledger(storages, holders, handles, next)
    }

    constructor ()
      ensures State() == EMPTY
    {
      storages, holders, handles, next := map[], map[], map[], 0;
    }

    method NewTensor(handle: Option<nat>, nullData: bool) returns (holder: nat)
      modifies this
      ensures holder == old(next) && State() == AddStorage(old(State()), Storage(1, 0, handle, nullData))
    {
      holder := next;
      storages := storages[next := Storage(1, 0, handle, nullData)];
      holders := holders[next := Holder(TensorHandle, next)];
      next := next + 1;
    }

    /** A further tensor, a NumPy capsule or a torch blob takes a reference, or an export that fails then loses it. */
    method TakeReference(holder: nat, kind: Kind) returns (taken: nat)
      requires Enabled(State(), Share(holder, kind))
      modifies this
      ensures taken == old(next) && State() == Step(old(State()), Share(holder, kind))
      ensures var s := old(holders)[holder].storage;
              && holders == old(holders)[taken := Holder(kind, s)]
              && storages.Keys == old(storages).Keys && storages[s] == old(storages)[s].(count := old(storages)[s].count + 1)
              && (forall other | other in storages && other != s :: storages[other] == old(storages)[other])
              && handles == old(handles) && next == old(next) + 1
    {
      var s := holders[holder].storage;
      var x := storages[s];
      storages := storages[s := x.(count := x.count + 1)];
      taken := next;
      holders := holders[next := Holder(kind, s)];
      next := next + 1;
    }

    method CallDeleter(k: nat)
      modifies this`handles
      ensures State() == RunDeleter(old(State()), k)
    {
      if k in handles {
        handles := handles[k := handles[k].(releases := handles[k].releases + 1)];
      }
    }

    method ReleaseStorage(s: nat)
      requires s in storages
      modifies this`storages, this`handles
      ensures State() == DropRef(old(State()), s)
    {
      var x := storages[s];
      if x.count == 1 {
        storages := storages[s := x.(count := 0, frees := x.frees + 1)];
        if !x.nullData && x.handle.Some? {
          CallDeleter(x.handle.value);
        }
      } else {
        storages := storages[s := x.(count := x.count - 1)];
      }
    }

    /** A holder goes away. */
    method DropReference(holder: nat)
      requires Enabled(State(), Drop(holder))
      modifies this
      ensures State() == Step(old(State()), Drop(holder))
      ensures holders == old(holders) - {holder} && storages.Keys == old(storages).Keys && next == old(next)
      ensures var s := old(holders)[holder].storage;
              && (forall other | other in storages && other != s :: storages[other] == old(storages)[other])
              && (old(storages)[s].count != 1 ==>
                    storages[s] == old(storages)[s].(count := old(storages)[s].count - 1) && handles == old(handles))
              && (old(storages)[s].count == 1 ==>
                    && storages[s] == old(storages)[s].(count := 0, frees := old(storages)[s].frees + 1)
                    && forall k | k in handles ::
                         k in old(handles)
                         && handles[k] == old(handles)[k].(releases := old(handles)[k].releases
                              + if old(storages)[s].handle == Some(k) && !old(storages)[s].nullData then 1 else 0))
    {
      var s := holders[holder].storage;
      holders := holders - {holder};
      ReleaseStorage(s);
    }

    /** An import without target device. What PyTorch and the importer do is an input; an import that was given up
        is followed by a copy into a tensor of its own. */
    method TensorFromTorch(outcome: Import) returns (holder: nat)
      modifies this
      ensures holder in holders && holders[holder].kind == TensorHandle
      ensures State() == var imported := Step(old(State()), FromTorch(outcome));
                         if outcome.Copied? || outcome.Wrapped? then imported else Step(imported, Allocate)
    {
      if outcome != NoHandle {
        var managed := next;
        handles := handles[managed := Handle(outcome, 0)];
        match outcome {
          case Wrapped(nullData) =>
            holder := NewTensor(Some(managed), nullData);
            return;
          case Copied =>
            CallDeleter(managed);
            holder := NewTensor(None, false);
            return;
          case ThrewLate(nullData) =>
            storages := storages[managed := Storage(1, 0, Some(managed), nullData)];
            ReleaseStorage(managed);
          case _ =>
        }
        CallDeleter(managed);
        next := next + 1;
      }
      holder := NewTensor(None, false);
    }
  }

  // ----- what every run keeps -----

  function HoldersOf(l: Ledger, s: nat): set<nat> {
    set h | h in l.holders && l.holders[h].storage == s
  }

  ghost predicate StorageKept(l: Ledger, s: nat)
    requires s in l.storages
  {
    var x := l.storages[s];
    && s < l.next && x.count == |HoldersOf(l, s)| && x.frees == (if x.count == 0 then 1 else 0)
    && (x.handle.Some? ==> x.handle.value == s && s in l.handles
                           && (l.handles[s].result == Wrapped(x.nullData)
                               || (l.handles[s].result == ThrewLate(x.nullData) && x.count == 0)))
  }

  /** The storage that wraps the buffer of handle k, and whether it was freed. */
  ghost predicate Wrapper(l: Ledger, k: nat, nullData: bool, frees: nat) {
    k in l.storages && l.storages[k].handle == Some(k) && l.storages[k].nullData == nullData && l.storages[k].frees == frees
  }

  ghost predicate HandleKept(l: Ledger, k: nat)
    requires k in l.handles
  {
    && k < l.next
    && match l.handles[k].result
       case NoHandle => false
       case Rejected => l.handles[k].releases == 1
       case Copied => l.handles[k].releases == 1
       case ThrewLate(nullData) => l.handles[k].releases == if nullData then 1 else 2
       case Wrapped(nullData) =>
         || (Wrapper(l, k, nullData, 0) && l.handles[k].releases == 0)
         || (Wrapper(l, k, nullData, 1) && l.handles[k].releases == if nullData then 0 else 1)
  }

  ghost predicate HoldersKept(l: Ledger) {
    forall h | h in l.holders :: h < l.next && l.holders[h].storage in l.storages
  }

  ghost predicate StoragesKept(l: Ledger) {
    forall s | s in l.storages :: StorageKept(l, s)
  }

  ghost predicate HandlesKept(l: Ledger) {
    forall k | k in l.handles :: HandleKept(l, k)
  }

  ghost predicate Kept(l: Ledger) {
    HoldersKept(l) && StoragesKept(l) && HandlesKept(l)
  }

  /** Nothing that exists already changes. */
  ghost predicate Extends(l: Ledger, l': Ledger) {
    && l.next <= l'.next
    && (forall s | s in l.storages :: s in l'.storages && l'.storages[s] == l.storages[s] && HoldersOf(l', s) == HoldersOf(l, s))
    && (forall k | k in l.handles :: k in l'.handles && l'.handles[k] == l.handles[k])
  }

  lemma StorageStaysKept(l: Ledger, l': Ledger, s: nat)
    requires s in l.storages && StorageKept(l, s) && Extends(l, l')
    ensures s in l'.storages && StorageKept(l', s)
  {
    hide HoldersOf;
  }

  lemma HandleStaysKept(l: Ledger, l': Ledger, k: nat)
    requires k in l.handles && HandleKept(l, k) && Extends(l, l')
    ensures k in l'.handles && HandleKept(l', k)
  {
    hide HoldersOf;
  }

  /** A step that only adds, and adds well. */
  lemma ExtendingKeeps(l: Ledger, l': Ledger)
    requires Kept(l) && Extends(l, l') && HoldersKept(l')
    requires forall s | s in l'.storages && s !in l.storages :: StorageKept(l', s)
    requires forall k | k in l'.handles && k !in l.handles :: HandleKept(l', k)
    ensures Kept(l')
  {
    hide StorageKept, HandleKept, Extends, HoldersKept;
    forall s | s in l'.storages ensures StorageKept(l', s) {
      if s in l.storages {
        StorageStaysKept(l, l', s);
      }
    }
    forall k | k in l'.handles ensures HandleKept(l', k) {
      if k in l.handles {
        HandleStaysKept(l, l', k);
      }
    }
  }

  lemma NewNumber(l: Ledger)
    requires Kept(l)
    ensures l.next !in l.storages && l.next !in l.handles && l.next !in l.holders && HoldersOf(l, l.next) == {}
  {
    forall s | s in l.storages ensures s < l.next {
      assert StorageKept(l, s);
    }
    forall k | k in l.handles ensures k < l.next {
      assert HandleKept(l, k);
    }
  }

  /** Adding a storage, with or without a handle made for it just before. */
  lemma AddStorageKeeps(l: Ledger, made: Ledger, x: Storage)
    requires Kept(l) && x.count == 1 && x.frees == 0
    requires made == l.(handles := made.handles)
    requires if x.handle.Some? then x.handle.value == l.next && made.handles == l.handles[l.next := Handle(Wrapped(x.nullData), 0)]
             else made.handles == l.handles || made.handles == l.handles[l.next := Handle(Copied, 1)]
    ensures Kept(AddStorage(made, x))
  {
    var l' := AddStorage(made, x);
    NewNumber(l);
    assert HoldersOf(l', l.next) == {l.next};
    forall s | s in l.storages ensures HoldersOf(l', s) == HoldersOf(l, s) {
      assert StorageKept(l, s);
    }
    assert Extends(l, l');
    ExtendingKeeps(l, l');
  }

  lemma RejectedKeeps(l: Ledger)
    requires Kept(l)
    ensures Kept(Step(l, FromTorch(Rejected)))
  {
    var l' := Step(l, FromTorch(Rejected));
    NewNumber(l);
    assert l'.handles == l.handles[l.next := Handle(Rejected, 1)];
    assert forall s :: HoldersOf(l', s) == HoldersOf(l, s);
    assert Extends(l, l');
    ExtendingKeeps(l, l');
  }

  lemma ThrewLateIs(l: Ledger, nullData: bool)
    ensures var l' := Step(l, FromTorch(ThrewLate(nullData)));
            && l'.handles == l.handles[l.next := Handle(ThrewLate(nullData), if nullData then 1 else 2)]
            && l'.storages == l.storages[l.next := Storage(0, 1, Some(l.next), nullData)]
            && l'.holders == l.holders && l'.next == l.next + 1
  {
  }

  lemma ThrewLateKeeps(l: Ledger, nullData: bool)
    requires Kept(l)
    ensures Kept(Step(l, FromTorch(ThrewLate(nullData))))
  {
    var l' := Step(l, FromTorch(ThrewLate(nullData)));
    ThrewLateIs(l, nullData);
    NewNumber(l);
    hide Step;
    assert forall s :: HoldersOf(l', s) == HoldersOf(l, s);
    assert Extends(l, l');
    ExtendingKeeps(l, l');
  }

  lemma HoldersAfterShare(l: Ledger, h: nat, kind: Kind, s: nat)
    requires HoldersKept(l) && Enabled(l, Share(h, kind))
    ensures HoldersOf(Step(l, Share(h, kind)), s)
            == HoldersOf(l, s) + if s == l.holders[h].storage then {l.next} else {}
    ensures l.next !in HoldersOf(l, s) && h in HoldersOf(l, l.holders[h].storage)
  {
  }

  lemma SharedStorageKept(l: Ledger, h: nat, kind: Kind)
    requires Enabled(l, Share(h, kind)) && HoldersKept(l) && StorageKept(l, l.holders[h].storage)
    ensures var s0, l' := l.holders[h].storage, Step(l, Share(h, kind)); s0 in l'.storages && StorageKept(l', s0)
  {
    HoldersAfterShare(l, h, kind, l.holders[h].storage);
    hide HoldersOf, HoldersKept;
  }

  /** What a step that counts one storage up or down leaves alone. */
  ghost predicate Touches(l: Ledger, l': Ledger, s0: nat) {
    && s0 in l.storages && l'.storages.Keys == l.storages.Keys && l'.handles.Keys == l.handles.Keys && l.next <= l'.next
    && (forall s | s in l.storages && s != s0 :: l'.storages[s] == l.storages[s] && HoldersOf(l', s) == HoldersOf(l, s))
    && (forall k | k in l.handles && k != s0 :: l'.handles[k] == l.handles[k])
    && (s0 in l.handles ==> l'.handles[s0].result == l.handles[s0].result)
  }

  lemma OthersStayKept(l: Ledger, l': Ledger, s0: nat, s: nat)
    requires Touches(l, l', s0) && s in l.storages && s != s0 && StorageKept(l, s)
    ensures StorageKept(l', s)
  {
    hide HoldersOf;
  }

  lemma OtherHandlesStayKept(l: Ledger, l': Ledger, s0: nat, k: nat)
    requires Touches(l, l', s0) && k in l.handles && k != s0 && HandleKept(l, k)
    ensures HandleKept(l', k)
  {
    hide HoldersOf;
  }

  lemma TouchingKeeps(l: Ledger, l': Ledger, s0: nat)
    requires Kept(l) && Touches(l, l', s0) && HoldersKept(l') && StorageKept(l', s0)
    requires s0 in l.handles ==> HandleKept(l', s0)
    ensures Kept(l')
  {
    hide StorageKept, HandleKept, HoldersKept, HoldersOf;
    forall s | s in l'.storages ensures StorageKept(l', s) {
      if s != s0 {
        OthersStayKept(l, l', s0, s);
      }
    }
    forall k | k in l'.handles ensures HandleKept(l', k) {
      if k != s0 {
        OtherHandlesStayKept(l, l', s0, k);
      }
    }
  }

  lemma ShareTouches(l: Ledger, h: nat, kind: Kind)
    requires Enabled(l, Share(h, kind)) && HoldersKept(l)
    ensures var l' := Step(l, Share(h, kind));
            Touches(l, l', l.holders[h].storage) && HoldersKept(l') && l'.handles == l.handles
  {
    var l' := Step(l, Share(h, kind));
    forall s | s in l.storages && s != l.holders[h].storage ensures HoldersOf(l', s) == HoldersOf(l, s) {
      HoldersAfterShare(l, h, kind, s);
    }
  }

  /** A wrapping storage that is still counted was not freed, so a step that keeps it so keeps the handle. */
  lemma HandleOfShared(l: Ledger, l': Ledger, s0: nat)
    requires s0 in l.storages && s0 in l'.storages && s0 in l.handles && HandleKept(l, s0) && l'.handles == l.handles
    requires l'.storages[s0] == l.storages[s0].(count := l'.storages[s0].count) && l.next <= l'.next
    ensures HandleKept(l', s0)
  {
  }

  lemma ShareKeeps(l: Ledger, h: nat, kind: Kind)
    requires Kept(l) && Enabled(l, Share(h, kind))
    ensures Kept(Step(l, Share(h, kind)))
  {
    var l' := Step(l, Share(h, kind));
    var s0 := l.holders[h].storage;
    assert l'.storages[s0] == l.storages[s0].(count := l'.storages[s0].count);
    hide StorageKept, HandleKept, HoldersOf, HoldersKept, Step, Touches;
    ShareTouches(l, h, kind);
    SharedStorageKept(l, h, kind);
    if s0 in l.handles {
      HandleOfShared(l, l', s0);
    }
    TouchingKeeps(l, l', s0);
  }

  lemma HoldersAfterDrop(l: Ledger, h: nat, s: nat)
    requires Enabled(l, Drop(h))
    ensures HoldersOf(Step(l, Drop(h)), s) == HoldersOf(l, s) - {h}
    ensures h in HoldersOf(l, s) <==> s == l.holders[h].storage
  {
  }

  lemma DropIs(l: Ledger, h: nat)
    requires Enabled(l, Drop(h))
    ensures var s0, l' := l.holders[h].storage, Step(l, Drop(h));
            var x := l.storages[s0];
            && l'.holders == l.holders - {h} && l'.next == l.next
            && l'.storages == l.storages[s0 := if x.count == 1 then x.(count := 0, frees := x.frees + 1) else x.(count := x.count - 1)]
            && (if x.count == 1 && !x.nullData && x.handle.Some? && x.handle.value in l.handles
                then l'.handles == l.handles[x.handle.value := l.handles[x.handle.value].(releases := l.handles[x.handle.value].releases + 1)]
                else l'.handles == l.handles)
  {
  }

  lemma DroppedStorageKept(l: Ledger, h: nat)
    requires Enabled(l, Drop(h)) && StorageKept(l, l.holders[h].storage)
    ensures var s0, l' := l.holders[h].storage, Step(l, Drop(h)); s0 in l'.storages && StorageKept(l', s0)
  {
    HoldersAfterDrop(l, h, l.holders[h].storage);
    DropIs(l, h);
    hide HoldersOf, Step;
  }

  lemma DroppedHandleKept(l: Ledger, h: nat)
    requires Enabled(l, Drop(h)) && StorageKept(l, l.holders[h].storage)
    requires l.holders[h].storage in l.handles && HandleKept(l, l.holders[h].storage)
    ensures var s0, l' := l.holders[h].storage, Step(l, Drop(h)); s0 in l'.handles && HandleKept(l', s0)
  {
    HoldersAfterDrop(l, h, l.holders[h].storage);
    DropIs(l, h);
    hide HoldersOf, Step;
  }

  lemma DropTouches(l: Ledger, h: nat)
    requires Enabled(l, Drop(h)) && HoldersKept(l) && StorageKept(l, l.holders[h].storage)
    ensures var l' := Step(l, Drop(h)); Touches(l, l', l.holders[h].storage) && HoldersKept(l')
  {
    DropIs(l, h);
    var l' := Step(l, Drop(h));
    forall s | s in l.storages && s != l.holders[h].storage ensures HoldersOf(l', s) == HoldersOf(l, s) {
      HoldersAfterDrop(l, h, s);
    }
    hide HoldersOf, Step;
  }

  lemma DropKeeps(l: Ledger, h: nat)
    requires Kept(l) && Enabled(l, Drop(h))
    ensures Kept(Step(l, Drop(h)))
  {
    var s0 := l.holders[h].storage;
    hide StorageKept, HandleKept, HoldersOf, HoldersKept, Step, Touches;
    DropTouches(l, h);
    DroppedStorageKept(l, h);
    if s0 in l.handles {
      DroppedHandleKept(l, h);
    }
    TouchingKeeps(l, Step(l, Drop(h)), s0);
  }

  lemma StepKeeps(l: Ledger, a: Action)
    requires Kept(l) && Enabled(l, a)
    ensures Kept(Step(l, a))
  {
    hide Kept;
    match a
    case Allocate => AddStorageKeeps(l, l, FreshStorage());
    case Share(h, kind) => ShareKeeps(l, h, kind);
    case Drop(h) => DropKeeps(l, h);
    case FromTorch(result) =>
      var made := MakeHandle(l, result);
      match result
      case NoHandle =>
      case Rejected => RejectedKeeps(l);
      case ThrewLate(nullData) => ThrewLateKeeps(l, nullData);
      case Copied =>
        assert RunDeleter(made, l.next) == l.(handles := l.handles[l.next := Handle(Copied, 1)]);
        AddStorageKeeps(l, RunDeleter(made, l.next), FreshStorage());
      case Wrapped(nullData) => AddStorageKeeps(l, made, Storage(1, 0, Some(l.next), nullData));
  }

  /** The state after a sequence of actions; those that name no holder that can be dropped or shared are skipped. */
  function Run(l: Ledger, actions: seq<Action>): Ledger
    decreases |actions|
  {
    if actions == [] then l
    else Run(if Enabled(l, actions[0]) then Step(l, actions[0]) else l, actions[1..])
  }

  lemma {:induction false} RunKeeps(l: Ledger, actions: seq<Action>)
    requires Kept(l)
    ensures Kept(Run(l, actions))
    decreases |actions|
  {
    hide Kept, Step, Enabled;
    if actions != [] {
      var a := actions[0];
      if Enabled(l, a) {
        StepKeeps(l, a);
      }
      RunKeeps(if Enabled(l, a) then Step(l, a) else l, actions[1..]);
    }
  }

  /** In every run a storage's count is the number of its holders, lost tickets included; it is freed exactly
      when there are none, and only once; so no holder refers to a freed storage. */
  lemma CountsAreHolders(actions: seq<Action>)
    ensures var l := Run(EMPTY, actions);
            && (forall s | s in l.storages :: l.storages[s].count == |HoldersOf(l, s)|
                                              && l.storages[s].frees == if HoldersOf(l, s) == {} then 1 else 0)
            && (forall h | h in l.holders :: l.holders[h].storage in l.storages
                                             && l.storages[l.holders[h].storage].frees == 0)
  {
    hide Run;
    RunKeeps(EMPTY, actions);
    var l := Run(EMPTY, actions);
    forall s | s in l.storages
      ensures l.storages[s].count == |HoldersOf(l, s)| && l.storages[s].frees == if HoldersOf(l, s) == {} then 1 else 0
    {
      assert StorageKept(l, s);
    }
    forall h | h in l.holders ensures l.storages[l.holders[h].storage].frees == 0 {
      assert h in HoldersOf(l, l.holders[h].storage);
    }
  }

  ghost predicate AllLost(l: Ledger) {
    forall h | h in l.holders :: l.holders[h].kind == LostTicket
  }

  ghost predicate HasLost(l: Ledger, s: nat) {
    exists h :: h in l.holders && l.holders[h] == Holder(LostTicket, s)
  }

  lemma HoldersAreLost(l: Ledger, s: nat)
    requires AllLost(l)
    ensures HoldersOf(l, s) == {} <==> !HasLost(l, s)
  {
    if HoldersOf(l, s) != {} {
      var h :| h in HoldersOf(l, s);
      assert l.holders[h] == Holder(LostTicket, s);
    }
    if HasLost(l, s) {
      var h :| h in l.holders && l.holders[h] == Holder(LostTicket, s);
      assert h in HoldersOf(l, s);
    }
  }

  /** Once every holder that can be dropped was dropped, a storage was freed exactly if no export lost a ticket
      to it. */
  lemma OnlyLostTicketsLeak(actions: seq<Action>)
    requires AllLost(Run(EMPTY, actions))
    ensures var l := Run(EMPTY, actions); forall s | s in l.storages :: l.storages[s].frees == if HasLost(l, s) then 0 else 1
  {
    CountsAreHolders(actions);
    var l := Run(EMPTY, actions);
    hide AllLost, HasLost, HoldersOf;
    forall s | s in l.storages ensures l.storages[s].frees == if HasLost(l, s) then 0 else 1 {
      HoldersAreLost(l, s);
    }
  }

  /** The buffer of the handle is wrapped and still has a holder. */
  ghost predicate InUse(l: Ledger, k: nat) {
    k in l.storages && l.storages[k].handle == Some(k) && HoldersOf(l, k) != {}
  }

  /** How often a handle's deleter should have run, and how often it did. It runs exactly once for a rejected or
      copied import, and for a wrapped buffer that is not null once it is out of use. It never runs for a wrapped
      null buffer, as an empty tensor has one; and it runs twice if the importer throws after the storage took it. */
  lemma HandleIsReleasedOnce(actions: seq<Action>, k: nat)
    requires k in Run(EMPTY, actions).handles
    ensures var l := Run(EMPTY, actions);
            var result, releases := l.handles[k].result, l.handles[k].releases;
            && (releases == 0 <==> result == Wrapped(true) || (result == Wrapped(false) && InUse(l, k)))
            && (releases == 1 <==> result == Rejected || result == Copied || result == ThrewLate(true)
                                   || (result == Wrapped(false) && !InUse(l, k)))
            && (releases == 2 <==> result == ThrewLate(false))
  {
    hide Run;
    RunKeeps(EMPTY, actions);
    var l := Run(EMPTY, actions);
    assert HandleKept(l, k);
    if k in l.storages {
      assert StorageKept(l, k);
    }
  }

  /** A run that never releases its handle, and one that releases it twice. */
  lemma NullBufferLeaks()
    ensures Run(EMPTY, [FromTorch(Wrapped(true)), Drop(0)])
            == Ledger(map[0 := Storage(0, 1, Some(0), true)], map[], map[0 := Handle(Wrapped(true), 0)], 1)
    ensures Run(EMPTY, [FromTorch(ThrewLate(false))])
            == Ledger(map[0 := Storage(0, 1, Some(0), false)], map[], map[0 := Handle(ThrewLate(false), 2)], 1)
  {
    var first, second := FromTorch(Wrapped(true)), Drop(0);
    assert [first, second][1..] == [second] && [second][1..] == [];
    var l := Step(EMPTY, first);
    assert l == Ledger(map[0 := Storage(1, 0, Some(0), true)], map[0 := Holder(TensorHandle, 0)], map[0 := Handle(Wrapped(true), 0)], 1);
    assert Run(EMPTY, [first, second]) == Run(l, [second]);
    assert l.holders - {0} == map[];
    assert Run(l, [second]) == Run(Step(l, second), []) == Step(l, second);
    var late := FromTorch(ThrewLate(false));
    assert [late][1..] == [];
    ThrewLateIs(EMPTY, false);
    assert Run(EMPTY, [late]) == Run(Step(EMPTY, late), []) == Step(EMPTY, late);
  }
}
