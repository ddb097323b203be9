/** The journey of a task through the overlay network under one policy. */
module Routing {
  import opened TaskPath
  import opened Hierarchy
  import opened DecisionTrees
  import opened TreePolicy
  import opened RoundTrip

  /** A task waiting to be scheduled at a virtual node, on its way down, or handed to local execution. */
  datatype Task = Scheduling(addr: Address) | Descending(addr: Address) | Local(addr: Address)

  /** What the data-item manager, the failure detector and the random generator say at one step. */
  datatype Answers = Answers(controlsData: bool, unallocated: bool, rightRunning: bool, coin: bool)

  /** The scheduling policy in force: a compiled tree, or coin flips. */
  datatype Guide = ByTree(pol: Policy) | ByCoins

  /** Levels a task is spread over before coins are flipped. */
  const SPREAD: nat := 3

  /** The layer at which a randomly scheduled task stops. */
  function StopLayer(size: nat, path: Path): nat {
    if Length(path) <= SPREAD then Height(size)
    else if Length(path) - SPREAD >= Height(size) then 0
    else Height(size) - (Length(path) - SPREAD)
  }

  predicate Involved(size: nat, g: Guide, here: Address, path: Path) {
    match g
    case ByTree(pol) => IsInvolved(pol, here, path)
    case ByCoins => here == RootOfNetwork(size) || Length(path) - SPREAD >= Height(size) - here.layer
  }

  function Choice(size: nat, g: Guide, here: Address, path: Path, coin: bool): Decision {
    match g
    case ByTree(pol) => Decide(pol, here, path)
    case ByCoins =>
      if Length(path) < SPREAD || Length(path) - SPREAD == Height(size) - here.layer then Stay
      else if coin then Left
      else Right
  }

  /** The right child, or the left one where the network ends. */
  function RightOrLeft(size: nat, here: Address): Address
    requires !here.IsLeaf()
  {
    if here.RightChild().rank >= size then here.LeftChild() else here.RightChild()
  }

  function ScheduleStep(size: nat, g: Guide, path: Path, here: Address, a: Answers): Task {
    var isRoot := here == RootOfNetwork(size);
    if !isRoot && !path.Root? && Involved(size, g, here, path.parent) && a.controlsData then Descending(here)
    else if a.unallocated then Descending(here)
    else if !isRoot then Scheduling(here.Parent())
    else Descending(here)
  }

  function DownStep(size: nat, g: Guide, path: Path, here: Address, a: Answers): Task {
    if !Involved(size, g, here, path) then Scheduling(here.Parent())
    else
      var d := Choice(size, g, here, path, a.coin);
      if d == Stay || here.IsLeaf() then Local(here)
      else
        var targetLeft := d == Left || RightOrLeft(size, here) == here.LeftChild();
        if !targetLeft && !a.rightRunning then Local(here)
        else if targetLeft then Descending(here.LeftChild())
        else Descending(RightOrLeft(size, here))
  }

  function Step(size: nat, g: Guide, path: Path, t: Task, a: Answers): Task {
    match t
    case Scheduling(here) => ScheduleStep(size, g, path, here, a)
    case Descending(here) => DownStep(size, g, path, here, a)
    case Local(_) => t
  }

  /** One journey: a task spawned on locality `origin` whose step i is answered by `ans(i)`. */
  datatype Trip = Trip(size: nat, guide: Guide, path: Path, origin: nat, ans: nat -> Answers) {

    /** The task after `n` steps. */
    function At(n: nat): Task {
      if n == 0 then Scheduling(Address(origin, 0)) else Step(size, guide, path, At(n - 1), ans(n - 1))
    }

    /** Number of upward hops in the first `n` steps. */
    function Ups(n: nat): nat {
      if n == 0 then 0 else Ups(n - 1) + if At(n).addr.layer > At(n - 1).addr.layer then 1 else 0
    }

    /** Number of downward hops in the first `n` steps. */
    function Downs(n: nat): nat {
      if n == 0 then 0 else Downs(n - 1) + if At(n).addr.layer < At(n - 1).addr.layer then 1 else 0
    }

    ghost predicate Allowed(m: seq<nat>) { Ready(size, guide, m) && origin < size }

    predicate CommittedAt(n: nat) { Committed(size, guide, path, At(n)) }

    ghost predicate AllRunning() { forall i: nat :: ans(i).rightRunning }
  }

  /** A policy for a network of `size` localities that realizes the mapping `m`. */
  ghost predicate Deployed(size: nat, pol: Policy, m: seq<nat>) {
    && size > 0
    && Realizes(pol, m)
    && pol.root == RootOfNetwork(size)
    && InNetwork(m, size)
  }

  /** Coins need no preparation, a tree has to be deployed. */
  ghost predicate Ready(size: nat, g: Guide, m: seq<nat>) {
    size > 0 && (g.ByTree? ==> Deployed(size, g.pol, m))
  }

  /** The task has met a virtual node that takes part in it and will follow its decisions. */
  predicate Committed(size: nat, g: Guide, path: Path, t: Task) {
    !t.Scheduling? && Involved(size, g, t.addr, path)
  }

  /** Where a task belongs: at the target of the tree, or anywhere on the stop layer. */
  predicate Arrived(size: nat, g: Guide, path: Path, addr: Address) {
    match g
    case ByTree(pol) => addr == GetTarget(pol, path)
    case ByCoins => addr.layer == StopLayer(size, path)
  }

  // --- single steps ---

  /** One committed step: one level down, or a stop, which is where the task belongs unless a rank failed. */
  ghost predicate FollowsOn(size: nat, g: Guide, path: Path, t: Task, u: Task, rightRunning: bool) {
    && Committed(size, g, path, u) && Installed(size, u.addr)
    && (u.Local? ==> u.addr == t.addr)
    && (u.Descending? ==> u.addr.layer + 1 == t.addr.layer)
    && (u.Local? && rightRunning ==> Arrived(size, g, path, u.addr))
  }

  lemma TreeStep(size: nat, pol: Policy, m: seq<nat>, path: Path, here: Address, a: Answers)
    requires Deployed(size, pol, m) && Installed(size, here) && IsInvolved(pol, here, path)
    ensures var u := DownStep(size, ByTree(pol), path, here, a);
            && OnChain(pol, u.addr, GetTarget(pol, path)) && Installed(size, u.addr)
            && (u.Local? ==> u.addr == here)
            && (u.Descending? ==> u.addr.layer + 1 == here.layer)
            && (u.Local? && a.rightRunning ==> u.addr == GetTarget(pol, path))
            && !u.Scheduling?
  {
    InvolvedIffOnChain(pol, m, here, path);
    DecideDirection(pol, m, here, path);
    OverlayClosed(size, here);
    if Decide(pol, here, path) == Right {
      RightInNetwork(pol, m, size, here, path);
      RightDiffers(here);
    }
  }

  lemma RightDiffers(a: Address)
    requires !a.IsLeaf()
    ensures a.RightChild() != a.LeftChild() && a.RightChild().rank > a.rank
  {
  }

  /** Under coin flips a virtual node takes part exactly from the stop layer up. */
  lemma CoinsInvolve(size: nat, here: Address, path: Path)
    requires size > 0 && Installed(size, here)
    ensures Involved(size, ByCoins, here, path) <==> here.layer >= StopLayer(size, path)
  {
    OverlayClosed(size, here);
  }

  lemma CoinStep(size: nat, path: Path, here: Address, a: Answers)
    requires size > 0 && Installed(size, here) && here.layer >= StopLayer(size, path)
    ensures var u := DownStep(size, ByCoins, path, here, a);
            && u.addr.layer >= StopLayer(size, path) && Installed(size, u.addr)
            && (u.Local? ==> u.addr == here)
            && (u.Descending? ==> u.addr.layer + 1 == here.layer)
            && (u.Local? && a.rightRunning ==> u.addr.layer == StopLayer(size, path))
            && !u.Scheduling?
  {
    CoinsInvolve(size, here, path);
    OverlayClosed(size, here);
  }

  /** A committed task moves one level down or stops; it never climbs again. */
  lemma CommittedStep(size: nat, g: Guide, m: seq<nat>, path: Path, t: Task, a: Answers)
    requires Ready(size, g, m) && Installed(size, t.addr) && Committed(size, g, path, t) && t.Descending?
    ensures FollowsOn(size, g, path, t, Step(size, g, path, t, a), a.rightRunning)
  {
    var u := Step(size, g, path, t, a);
    match g
    case ByTree(pol) =>
      TreeStep(size, pol, m, path, t.addr, a);
      InvolvedIffOnChain(pol, m, u.addr, path);
    case ByCoins =>
      CoinsInvolve(size, t.addr, path);
      CoinStep(size, path, t.addr, a);
      CoinsInvolve(size, u.addr, path);
  }

  lemma RootTakesPart(size: nat, g: Guide, m: seq<nat>, path: Path)
    requires Ready(size, g, m)
    ensures Involved(size, g, RootOfNetwork(size), path)
  {
    if g.ByTree? {
      RootAlwaysInvolved(g.pol, path);
    }
  }

  /** A task that is not committed climbs one level, commits where it is, or turns to go down. */
  lemma SearchingStep(size: nat, g: Guide, m: seq<nat>, path: Path, t: Task, a: Answers)
    requires Ready(size, g, m) && Installed(size, t.addr) && !Committed(size, g, path, t) && !t.Local?
    ensures var u := Step(size, g, path, t, a);
            && Installed(size, u.addr) && !u.Local?
            && (u.Descending? ==> t.Scheduling? && u.addr == t.addr)
            && (u.Scheduling? ==> u.addr.layer == t.addr.layer + 1)
  {
    RootTakesPart(size, g, m, path);
    OverlayClosed(size, t.addr);
  }

  // --- the rule of the road, in terms of targets and layers ---

  /** The virtual node lies between the root and where the task is bound. */
  predicate OnWay(size: nat, g: Guide, path: Path, addr: Address) {
    match g
    case ByTree(pol) => OnChain(pol, addr, GetTarget(pol, path))
    case ByCoins => addr.layer >= StopLayer(size, path)
  }

  /** A climbing task turns round at unallocated data, at the root, and at a node that lies on the way of
      the parent task and controls the data. */
  predicate TurnsRound(size: nat, g: Guide, path: Path, addr: Address, a: Answers) {
    || a.unallocated
    || addr == RootOfNetwork(size)
    || (!path.Root? && a.controlsData && OnWay(size, g, path.parent, addr))
  }

  /** The child of a node on the way to which the task is bound is the right one. */
  predicate BoundRight(size: nat, g: Guide, path: Path, addr: Address, coin: bool)
    requires !addr.IsLeaf()
  {
    match g
    case ByTree(pol) => Above(addr.RightChild(), GetTarget(pol, path))
    case ByCoins => !coin && addr.RightChild().rank < size
  }

  /** What becomes of a task in one step. A descending task off its way climbs, one that has arrived stays,
      one bound to the left goes there, and one bound to the right goes there if that locality runs. */
  predicate Obeys(size: nat, g: Guide, path: Path, t: Task, a: Answers, u: Task) {
    match t
    case Scheduling(here) =>
      u == if TurnsRound(size, g, path, here, a) then Descending(here) else Scheduling(here.Parent())
    case Descending(here) =>
      if !OnWay(size, g, path, here) then u == Scheduling(here.Parent())
      else if Arrived(size, g, path, here) then u == Local(here)
      else
        && !here.IsLeaf()
        && u == if !BoundRight(size, g, path, here, a.coin) then Descending(here.LeftChild())
                else if a.rightRunning then Descending(here.RightChild())
                else Local(here)
    case Local(_) => u == t
  }

  lemma InvolvedIffOnWay(size: nat, g: Guide, m: seq<nat>, path: Path, here: Address)
    requires Ready(size, g, m) && Installed(size, here)
    ensures Involved(size, g, here, path) <==> OnWay(size, g, path, here)
  {
    match g
    case ByTree(pol) => InvolvedIffOnChain(pol, m, here, path);
    case ByCoins => CoinsInvolve(size, here, path);
  }

  /** The ways below the two children of a node do not meet. */
  lemma OneSide(a: Address, target: Address)
    requires a.Valid() && !a.IsLeaf() && target.Valid()
    ensures !(Above(a.LeftChild(), target) && Above(a.RightChild(), target))
  {
    ParentOfChildren(a);
    if target.layer < a.layer {
      AboveIsCover(a.LeftChild(), target);
      AboveIsCover(a.RightChild(), target);
      CoverSplit(a, target.rank);
    }
  }

  lemma TreeObeys(size: nat, pol: Policy, m: seq<nat>, path: Path, here: Address, a: Answers)
    requires Deployed(size, pol, m) && Installed(size, here) && OnChain(pol, here, GetTarget(pol, path))
    ensures Obeys(size, ByTree(pol), path, Descending(here), a, DownStep(size, ByTree(pol), path, here, a))
  {
    InvolvedIffOnChain(pol, m, here, path);
    DecideDirection(pol, m, here, path);
    OverlayClosed(size, here);
    if !here.IsLeaf() {
      TargetValid(pol, m, path);
      OneSide(here, GetTarget(pol, path));
      RightDiffers(here);
    }
    if Decide(pol, here, path) == Right {
      RightInNetwork(pol, m, size, here, path);
    }
  }

  lemma CoinsObey(size: nat, path: Path, here: Address, a: Answers)
    requires size > 0 && Installed(size, here) && here.layer >= StopLayer(size, path)
    ensures Obeys(size, ByCoins, path, Descending(here), a, DownStep(size, ByCoins, path, here, a))
  {
    CoinsInvolve(size, here, path);
    OverlayClosed(size, here);
    if !here.IsLeaf() {
      RightDiffers(here);
    }
  }

  /** Every step from an installed node obeys the rule. */
  lemma StepObeys(size: nat, g: Guide, m: seq<nat>, path: Path, t: Task, a: Answers)
    requires Ready(size, g, m) && Installed(size, t.addr)
    ensures Obeys(size, g, path, t, a, Step(size, g, path, t, a))
  {
    InvolvedIffOnWay(size, g, m, path, t.addr);
    if t.Scheduling? && path.Child? {
      InvolvedIffOnWay(size, g, m, path.parent, t.addr);
    }
    if t.Descending? && OnWay(size, g, path, t.addr) {
      match g
      case ByTree(pol) => TreeObeys(size, pol, m, path, t.addr, a);
      case ByCoins => CoinsObey(size, path, t.addr, a);
    }
  }

  // --- whole journeys ---

  /** One step from an installed node, in terms of layers only. */
  lemma StepLayers(size: nat, g: Guide, m: seq<nat>, path: Path, t: Task, a: Answers)
    requires Ready(size, g, m) && Installed(size, t.addr) && (t.Local? ==> Committed(size, g, path, t))
    ensures var u := Step(size, g, path, t, a);
            && Installed(size, u.addr) && u.addr.layer <= Height(size)
            && (u.Local? ==> Committed(size, g, path, u))
            && (Committed(size, g, path, t) ==> Committed(size, g, path, u) && t.addr.layer - 1 <= u.addr.layer <= t.addr.layer)
            && (!Committed(size, g, path, t) ==> t.addr.layer <= u.addr.layer <= t.addr.layer + 1)
  {
    if t.Descending? && Committed(size, g, path, t) {
      CommittedStep(size, g, m, path, t, a);
    } else if !t.Local? {
      SearchingStep(size, g, m, path, t, a);
    }
    OverlayClosed(size, Step(size, g, path, t, a).addr);
  }

  /** The task is at an installed virtual node; while it searches it has only climbed; once
      committed it has only descended since. */
  ghost predicate OnCourse(trip: Trip, n: nat) {
    && Installed(trip.size, trip.At(n).addr)
    && trip.Ups(n) <= Height(trip.size) && trip.Downs(n) <= Height(trip.size)
    && trip.At(n).addr.layer == trip.Ups(n) - trip.Downs(n)
    && (trip.At(n).Local? ==> trip.CommittedAt(n))
    && (!trip.CommittedAt(n) ==> trip.Downs(n) == 0)
  }

  lemma OnCourseNext(trip: Trip, m: seq<nat>, n: nat)
    requires n > 0 && trip.Allowed(m) && OnCourse(trip, n - 1)
    ensures OnCourse(trip, n)
  {
    StepLayers(trip.size, trip.guide, m, trip.path, trip.At(n - 1), trip.ans(n - 1));
  }

  lemma OnCourseStart(trip: Trip, m: seq<nat>)
    requires trip.Allowed(m)
    ensures OnCourse(trip, 0)
  {
    LayersExact(trip.origin, trip.size, 0);
  }

  /** After any number of steps a task is on course: at most as many hops up, and at most as many
      down, as the network has levels. */
  lemma {:induction false} Journey(trip: Trip, m: seq<nat>, n: nat)
    requires trip.Allowed(m)
    ensures OnCourse(trip, n)
  {
    if n == 0 {
      OnCourseStart(trip, m);
    } else {
      Journey(trip, m, n - 1);
      OnCourseNext(trip, m, n);
    }
  }

  /** So does every step of a journey. */
  lemma TripObeys(trip: Trip, m: seq<nat>, n: nat)
    requires trip.Allowed(m)
    ensures Obeys(trip.size, trip.guide, trip.path, trip.At(n), trip.ans(n), trip.At(n + 1))
  {
    Journey(trip, m, n);
    StepObeys(trip.size, trip.guide, m, trip.path, trip.At(n), trip.ans(n));
  }

  /** A task is handed to another locality on the way down only if that one runs. */
  lemma HopsToRunning(trip: Trip, m: seq<nat>, n: nat)
    requires trip.Allowed(m)
    requires trip.At(n + 1).addr.layer < trip.At(n).addr.layer && trip.At(n + 1).addr.rank != trip.At(n).addr.rank
    ensures trip.ans(n).rightRunning
  {
    TripObeys(trip, m, n);
  }

  /** A task is executed away from where it belongs only in front of a right child that does not run. */
  lemma StrandedOnlyByFailure(trip: Trip, m: seq<nat>, n: nat)
    requires trip.Allowed(m) && !trip.At(n).Local? && trip.At(n + 1).Local?
    ensures var here := trip.At(n).addr;
            && trip.At(n + 1).addr == here
            && (Arrived(trip.size, trip.guide, trip.path, here) ||
                (!trip.ans(n).rightRunning && !here.IsLeaf() &&
                 BoundRight(trip.size, trip.guide, trip.path, here, trip.ans(n).coin)))
  {
    TripObeys(trip, m, n);
  }

  lemma {:induction false} UpNext(a: Address, k: nat)
    ensures a.Up(k + 1) == a.Up(k).Parent()
    decreases k
  {
    if k > 0 {
      UpNext(a.Parent(), k - 1);
    }
  }

  /** The task turns round at the k-th ancestor of its origin. */
  predicate TurnsAt(trip: Trip, k: nat) {
    TurnsRound(trip.size, trip.guide, trip.path, Address(trip.origin, 0).Up(k), trip.ans(k))
  }

  /** As long as no ancestor turns it round, a task climbs straight up. */
  lemma {:induction false} StraightUp(trip: Trip, m: seq<nat>, k: nat)
    requires trip.Allowed(m) && forall j: nat :: j < k ==> !TurnsAt(trip, j)
    ensures trip.At(k) == Scheduling(Address(trip.origin, 0).Up(k))
  {
    if k > 0 {
      StraightUp(trip, m, k - 1);
      TripObeys(trip, m, k - 1);
      UpNext(Address(trip.origin, 0), k - 1);
      assert !TurnsAt(trip, k - 1);
    }
  }

  /** The journey begins straight up to the lowest ancestor of the origin that turns the task round. */
  lemma FirstTurn(trip: Trip, m: seq<nat>) returns (k: nat)
    requires trip.Allowed(m)
    ensures k <= Height(trip.size) && TurnsAt(trip, k) && forall j: nat :: j < k ==> !TurnsAt(trip, j)
    ensures forall j: nat :: j <= k ==> trip.At(j) == Scheduling(Address(trip.origin, 0).Up(j))
    ensures trip.At(k + 1) == Descending(Address(trip.origin, 0).Up(k))
  {
    k := 0;
    while !TurnsAt(trip, k)
      invariant k <= Height(trip.size) && forall j: nat :: j < k ==> !TurnsAt(trip, j)
      decreases Height(trip.size) - k
    {
      StraightUp(trip, m, k);
      TopTurns(trip, m, k);
      k := k + 1;
    }
    forall j: nat | j <= k ensures trip.At(j) == Scheduling(Address(trip.origin, 0).Up(j)) {
      StraightUp(trip, m, j);
    }
    TripObeys(trip, m, k);
  }

  /** At the latest the root turns the task round. */
  lemma TopTurns(trip: Trip, m: seq<nat>, k: nat)
    requires trip.Allowed(m) && !TurnsAt(trip, k) && trip.At(k) == Scheduling(Address(trip.origin, 0).Up(k))
    ensures k < Height(trip.size)
  {
    Journey(trip, m, k);
    LayersExact(trip.origin, trip.size, 0);
    UpCovers(Address(trip.origin, 0), k, trip.origin);
    OverlayClosed(trip.size, trip.At(k).addr);
  }

  lemma CommittedNext(trip: Trip, m: seq<nat>, n: nat)
    requires trip.Allowed(m) && trip.CommittedAt(n)
    ensures trip.CommittedAt(n + 1)
    ensures trip.At(n + 1).addr.layer <= trip.At(n).addr.layer
  {
    Journey(trip, m, n);
    if trip.At(n).Descending? {
      CommittedStep(trip.size, trip.guide, m, trip.path, trip.At(n), trip.ans(n));
    }
  }

  lemma {:induction false} StaysCommitted(trip: Trip, m: seq<nat>, i: nat, j: nat)
    requires trip.Allowed(m) && i <= j && trip.CommittedAt(i)
    ensures trip.CommittedAt(j)
    decreases j - i
  {
    if i < j {
      CommittedNext(trip, m, i);
      StaysCommitted(trip, m, i + 1, j);
    }
  }

  /** After its first downward hop a task never climbs again. */
  lemma NoClimbAfterDescent(trip: Trip, m: seq<nat>, i: nat, j: nat)
    requires trip.Allowed(m) && i <= j
    requires trip.At(i + 1).addr.layer < trip.At(i).addr.layer
    ensures trip.At(j + 1).addr.layer <= trip.At(j).addr.layer
  {
    Journey(trip, m, i);
    if !trip.CommittedAt(i) {
      SearchingStep(trip.size, trip.guide, m, trip.path, trip.At(i), trip.ans(i));
    }
    StaysCommitted(trip, m, i, j);
    CommittedNext(trip, m, j);
  }

  /** Steps that remain: what is left to climb, then what is left to descend. */
  function Budget(size: nat, g: Guide, path: Path, t: Task): int {
    if t.Local? then 0
    else if Committed(size, g, path, t) then t.addr.layer + 1
    else Height(size) + 2 + 2 * (Height(size) - t.addr.layer) + if t.Scheduling? then 1 else 0
  }

  lemma BudgetStep(size: nat, g: Guide, m: seq<nat>, path: Path, t: Task, a: Answers)
    requires Ready(size, g, m) && Installed(size, t.addr) && !t.Local?
    ensures 0 <= Budget(size, g, path, Step(size, g, path, t, a)) < Budget(size, g, path, t)
  {
    OverlayClosed(size, t.addr);
    if Committed(size, g, path, t) {
      CommittedStep(size, g, m, path, t, a);
    } else {
      SearchingStep(size, g, m, path, t, a);
      OverlayClosed(size, Step(size, g, path, t, a).addr);
    }
  }

  lemma {:induction false} BudgetShrinks(trip: Trip, m: seq<nat>, n: nat)
    requires trip.Allowed(m)
    ensures trip.At(n).Local? || 0 <= Budget(trip.size, trip.guide, trip.path, trip.At(n)) <= 3 * Height(trip.size) + 3 - n
  {
    if n > 0 {
      BudgetShrinks(trip, m, n - 1);
      Journey(trip, m, n - 1);
      if !trip.At(n - 1).Local? {
        BudgetStep(trip.size, trip.guide, m, trip.path, trip.At(n - 1), trip.ans(n - 1));
      }
    }
  }

  /** Every task is handed to local execution, whatever is answered: at a virtual node that takes
      part in it always, and where it belongs when no locality has failed. */
  lemma Executed(trip: Trip, m: seq<nat>, n: nat)
    requires trip.Allowed(m) && n > 3 * Height(trip.size) + 3
    ensures trip.At(n).Local? && Installed(trip.size, trip.At(n).addr)
    ensures Involved(trip.size, trip.guide, trip.At(n).addr, trip.path)
    ensures trip.AllRunning() ==> Arrived(trip.size, trip.guide, trip.path, trip.At(n).addr)
  {
    BudgetShrinks(trip, m, n);
    Journey(trip, m, n);
    if trip.AllRunning() {
      LocalWhereArrived(trip, m, n);
    }
  }

  lemma {:induction false} LocalWhereArrived(trip: Trip, m: seq<nat>, n: nat)
    requires trip.Allowed(m) && trip.At(n).Local? && trip.AllRunning()
    ensures Arrived(trip.size, trip.guide, trip.path, trip.At(n).addr)
  {
    if trip.At(n - 1).Local? {
      LocalWhereArrived(trip, m, n - 1);
    } else {
      Journey(trip, m, n - 1);
      LocalStep(trip.size, trip.guide, m, trip.path, trip.At(n - 1), trip.ans(n - 1));
    }
  }

  /** With all ranks running, a task is handed to local execution only where it belongs. */
  lemma LocalStep(size: nat, g: Guide, m: seq<nat>, path: Path, t: Task, a: Answers)
    requires Ready(size, g, m) && Installed(size, t.addr) && !t.Local? && a.rightRunning
    ensures Step(size, g, path, t, a).Local? ==> Arrived(size, g, path, Step(size, g, path, t, a).addr)
  {
    if Committed(size, g, path, t) {
      CommittedStep(size, g, m, path, t, a);
    } else {
      SearchingStep(size, g, m, path, t, a);
    }
  }

  /** Under a tree policy: on the chain from the root to the target always, and at the target
      itself when no locality has failed. */
  lemma Delivered(trip: Trip, m: seq<nat>, n: nat)
    requires trip.Allowed(m) && trip.guide.ByTree? && n > 3 * Height(trip.size) + 3
    ensures trip.At(n).Local?
    ensures OnChain(trip.guide.pol, trip.At(n).addr, GetTarget(trip.guide.pol, trip.path))
    ensures trip.AllRunning() ==> trip.At(n).addr == GetTarget(trip.guide.pol, trip.path)
  {
    Executed(trip, m, n);
    InvolvedIffOnChain(trip.guide.pol, m, trip.At(n).addr, trip.path);
  }

  /** Under coin flips, whichever way they fall: inside the network at or above the layer that the
      length of the path fixes, and exactly on it when no locality has failed. */
  lemma RandomlyDelivered(trip: Trip, n: nat)
    requires trip.size > 0 && trip.origin < trip.size && trip.guide.ByCoins? && n > 3 * Height(trip.size) + 3
    ensures trip.At(n).Local? && Installed(trip.size, trip.At(n).addr)
    ensures StopLayer(trip.size, trip.path) <= trip.At(n).addr.layer <= Height(trip.size)
    ensures trip.AllRunning() ==> trip.At(n).addr.layer == StopLayer(trip.size, trip.path)
    ensures var deep := if Length(trip.path) <= 3 then 0 else Length(trip.path) - 3;
            StopLayer(trip.size, trip.path) + (if deep < Height(trip.size) then deep else Height(trip.size)) == Height(trip.size)
  {
    Executed(trip, [], n);
    CoinsInvolve(trip.size, trip.At(n).addr, trip.path);
    OverlayClosed(trip.size, trip.At(n).addr);
  }

  /** End to end: from any origin and for any mapping, a task split far enough runs on the locality
      that reading the policy back names for it. */
  lemma DeepTaskDelivered(trip: Trip, m: seq<nat>, n: nat)
    requires trip.Allowed(m) && trip.guide.ByTree? && trip.AllRunning()
    requires Length(trip.path) >= trip.guide.pol.granularity + Height(trip.size)
    requires n > 3 * Height(trip.size) + 3
    ensures Bits(Ancestor(trip.path, trip.guide.pol.granularity)) < |m|
    ensures var r := ReadBack(m, Height(trip.size), trip.guide.pol.granularity);
            trip.At(n) == Local(Address(r[Bits(Ancestor(trip.path, trip.guide.pol.granularity))], 0))
  {
    DeepTaskTarget(trip.guide.pol, m, trip.path);
    Delivered(trip, m, n);
  }

  // --- the service on each virtual node ---

  method AskInvolved(size: nat, g: Guide, here: Address, path: Path, ghost m: seq<nat>) returns (involved: bool)
    requires Ready(size, g, m)
    ensures involved <==> Involved(size, g, here, path)
  {
    match g {
      case ByTree(pol) =>
        involved := RunIsInvolved(pol, here, path, m);
        InvolvedIffOnChain(pol, m, here, path);
      case ByCoins =>
        involved := here == RootOfNetwork(size) || Length(path) - SPREAD >= Height(size) - here.layer;
    }
  }

  /** The decision of a virtual node that takes part; it is never done. */
  method AskDecision(size: nat, g: Guide, here: Address, path: Path, coin: bool, ghost m: seq<nat>) returns (d: Decision)
    requires Ready(size, g, m) && Involved(size, g, here, path)
    ensures d == Choice(size, g, here, path, coin) && d != Done
  {
    match g {
      case ByTree(pol) =>
        d := RunDecide(pol, here, path, m);
        DecideDirection(pol, m, here, path);
      case ByCoins =>
        if Length(path) < SPREAD || Length(path) - SPREAD == Height(size) - here.layer {
          return Stay;
        }
        d := if coin then Left else Right;
    }
  }

  class SchedulerService {
    const policy: Guide
    const size: nat
    const here: Address
    const root: Address
    const parent: Address
    const left: Address
    const right: Address
    const isRoot: bool

    ghost predicate Valid()
      reads this
    {
      && Installed(size, here)
      && size > 0
      && root == RootOfNetwork(size)
      && parent == here.Parent()
      && isRoot == (here == root)
      && (!here.IsLeaf() ==> left == here.LeftChild() && right == RightOrLeft(size, here) && left.rank == here.rank)
    }

    constructor (here: Address, size: nat, policy: Guide)
      requires size > 0 && Installed(size, here)
      ensures Valid() && this.here == here && this.size == size && this.policy == policy
    {
      this.policy := policy;
      this.size := size;
      this.here := here;
      this.root := RootOfNetwork(size);
      this.parent := here.Parent();
      this.isRoot := here == RootOfNetwork(size);
      if here.IsLeaf() {
        this.left := Address(0, 0);
        this.right := Address(0, 0);
      } else {
        this.left := here.LeftChild();
        this.right := if here.RightChild().rank >= size then here.LeftChild() else here.RightChild();
      }
    }

    /** Schedules a work item that may be enqueued remotely, or keeps one that may not. */
    method Schedule(path: Path, enqueueRemote: bool, a: Answers, ghost m: seq<nat>) returns (next: Task)
      requires Valid() && Ready(size, policy, m)
      ensures next == if enqueueRemote then ScheduleStep(size, policy, path, here, a) else Local(here)
      ensures enqueueRemote ==> Obeys(size, policy, path, Scheduling(here), a, next)
      ensures enqueueRemote ==> Installed(size, next.addr)
    {
      OverlayClosed(size, here);
      StepObeys(size, policy, m, path, Scheduling(here), a);
      if !enqueueRemote {
        return Local(here);
      }
      if !isRoot {
        var involved := false;
        if !path.Root? {
          involved := AskInvolved(size, policy, here, path.parent, m);
        }
        if involved && a.controlsData {
          return Descending(here);
        }
      }
      if a.unallocated {
        return Descending(here);
      }
      if !isRoot {
        return Scheduling(parent);
      }
      return Descending(here);
    }

    /** The way down; the three assertions are those of the original. */
    method ScheduleDown(path: Path, a: Answers, ghost m: seq<nat>) returns (next: Task)
      requires Valid() && Ready(size, policy, m)
      ensures next == DownStep(size, policy, path, here, a)
      ensures Obeys(size, policy, path, Descending(here), a, next)
      ensures Installed(size, next.addr)
    {
      StepObeys(size, policy, m, path, Descending(here), a);
      OverlayClosed(size, here);
      var involved := AskInvolved(size, policy, here, path, m);
      if !involved {
        RootTakesPart(size, policy, m, path);
        assert !isRoot;
        return Scheduling(parent);
      }
      var d := AskDecision(size, policy, here, path, a.coin, m);
      assert d != Done;
      if d == Stay || here.IsLeaf() {
        return Local(here);
      }
      var targetLeft := d == Left || right == left;
      if !targetLeft && !a.rightRunning {
        return Local(here);
      }
      if targetLeft {
        return Descending(left);
      }
      RightDiffers(here);
      assert right.rank != here.rank;
      return Descending(right);
    }
  }
}
