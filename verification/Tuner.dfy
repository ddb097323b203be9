/** The coordinate descent over the number of active nodes and the clock frequency. */
module Tuner {
  import opened Distribution

  datatype Option<+T> = None | Some(value: T)

  datatype Config = Config(mask: seq<bool>, freq: nat)

  datatype Dimension = NumNodes | Frequency

  datatype Direction = Up | Down

  // --- steps on masks ---

  lemma {:induction false} ActiveUpdate(mask: seq<bool>, i: nat, b: bool, n: nat)
    requires i < |mask| && mask[i] != b && n <= |mask|
    ensures Active(mask[i := b], n) == Active(mask, n) + if i >= n then 0 else if b then 1 else -1
  {
    if n > 0 {
      ActiveUpdate(mask, i, b, n - 1);
    }
  }

  lemma {:induction false} UniformActive(mask: seq<bool>, b: bool, n: nat)
    requires n <= |mask| && forall j :: 0 <= j < n ==> mask[j] == b
    ensures Active(mask, n) == if b then n else 0
  {
    if n > 0 {
      UniformActive(mask, b, n - 1);
    }
  }

  /** Activates the first inactive node. */
  method IncMask(mask: seq<bool>) returns (r: Option<seq<bool>>)
    ensures r.None? <==> NumActive(mask) == |mask|
    ensures r.Some? ==> |r.value| == |mask| && NumActive(r.value) == NumActive(mask) + 1
    ensures r.Some? ==> exists i :: && 0 <= i < |mask| && !mask[i] && r.value == mask[i := true]
                                    && forall j :: 0 <= j < i ==> mask[j]
    ensures r.Some? && PrefixMask(mask) ==> PrefixMask(r.value)
  {
    if NumActive(mask) == |mask| {
      return None;
    }
    for i := 0 to |mask|
      invariant forall j :: 0 <= j < i ==> mask[j]
    {
      if !mask[i] {
        ActiveUpdate(mask, i, true, |mask|);
        return Some(mask[i := true]);
      }
    }
    UniformActive(mask, true, |mask|);
    assert false;
  }

  /** Deactivates the last active node, but never the only one. */
  method DecMask(mask: seq<bool>) returns (r: Option<seq<bool>>)
    ensures r.None? <==> NumActive(mask) == 1
    ensures r.Some? ==> |r.value| == |mask|
    ensures r.Some? ==> NumActive(r.value) == if NumActive(mask) == 0 then 0 else NumActive(mask) - 1
    ensures r.Some? && NumActive(mask) > 0 ==>
              exists i :: && 0 <= i < |mask| && mask[i] && r.value == mask[i := false]
                          && forall j :: i < j < |mask| ==> !mask[j]
    ensures r.Some? && PrefixMask(mask) ==> PrefixMask(r.value)
  {
    if NumActive(mask) == 1 {
      return None;
    }
    for i := 0 to |mask|
      invariant forall j :: |mask| - i <= j < |mask| ==> !mask[j]
    {
      if mask[|mask| - i - 1] {
        ActiveUpdate(mask, |mask| - i - 1, false, |mask|);
        return Some(mask[|mask| - i - 1 := false]);
      }
    }
    UniformActive(mask, false, |mask|);
    return Some(mask);
  }

  // --- steps on frequencies ---

  function Find(freqs: seq<nat>, freq: nat): (pos: nat)
    requires freq in freqs
    ensures pos < |freqs| && freqs[pos] == freq
    ensures forall i :: 0 <= i < pos ==> freqs[i] != freq
  {
    if freqs[0] == freq then 0 else 1 + Find(freqs[1..], freq)
  }

  function IncFreq(freqs: seq<nat>, freq: nat): Option<nat>
    requires freq in freqs
  {
    var pos := Find(freqs, freq);
    if pos == |freqs| - 1 then None else Some(freqs[pos + 1])
  }

  function DecFreq(freqs: seq<nat>, freq: nat): Option<nat>
    requires freq in freqs
  {
    var pos := Find(freqs, freq);
    if pos == 0 then None else Some(freqs[pos - 1])
  }

  /** Each frequency of the list is above the one before. */
  predicate Rising(freqs: seq<nat>, n: nat)
    requires n <= |freqs|
  {
    forall i, j :: 0 <= i < j < n ==> freqs[i] < freqs[j]
  }

  /** A step up raises the frequency, for every known frequency. */
  predicate UpRaises(freqs: seq<nat>) {
    forall f :: f in freqs && IncFreq(freqs, f).Some? ==> IncFreq(freqs, f).value > f
  }

  lemma FindRising(freqs: seq<nat>, k: nat)
    requires k < |freqs| && Rising(freqs, k + 1)
    ensures Find(freqs, freqs[k]) == k
  {
    assert forall i :: 0 <= i < k ==> freqs[i] < freqs[k];
  }

  lemma {:induction false} UpRaisesRising(freqs: seq<nat>, n: nat)
    requires n <= |freqs| && UpRaises(freqs)
    ensures Rising(freqs, n)
  {
    if n > 1 {
      UpRaisesRising(freqs, n - 1);
      FindRising(freqs, n - 2);
      assert freqs[n - 2] in freqs;
      assert IncFreq(freqs, freqs[n - 2]) == Some(freqs[n - 1]);
    }
  }

  /** The list position decides, so up means a higher frequency exactly for rising lists. */
  lemma UpRaisesIffRising(freqs: seq<nat>)
    ensures UpRaises(freqs) <==> Rising(freqs, |freqs|)
  {
    if UpRaises(freqs) {
      UpRaisesRising(freqs, |freqs|);
    }
  }

  /** A step down lowers the frequency, for every known frequency. */
  predicate DownLowers(freqs: seq<nat>) {
    forall f :: f in freqs && DecFreq(freqs, f).Some? ==> DecFreq(freqs, f).value < f
  }

  /** Every frequency that is new in the list is above the one before. */
  predicate NewOnesRise(freqs: seq<nat>) {
    forall k :: 0 < k < |freqs| && freqs[k] !in freqs[..k] ==> freqs[k - 1] < freqs[k]
  }

  lemma FindFirst(freqs: seq<nat>, k: nat)
    requires k < |freqs|
    ensures Find(freqs, freqs[k]) == k <==> freqs[k] !in freqs[..k]
  {
    var pos := Find(freqs, freqs[k]);
    if freqs[k] in freqs[..k] {
      var i :| 0 <= i < k && freqs[i] == freqs[k];
      assert pos <= i;
    }
  }

  /** Down means a lower frequency exactly if every new frequency of the list is above the one before. */
  lemma DownLowersIff(freqs: seq<nat>)
    ensures DownLowers(freqs) <==> NewOnesRise(freqs)
  {
    if DownLowers(freqs) {
      forall k | 0 < k < |freqs| && freqs[k] !in freqs[..k] ensures freqs[k - 1] < freqs[k] {
        FindFirst(freqs, k);
        assert freqs[k] in freqs;
        assert DecFreq(freqs, freqs[k]) == Some(freqs[k - 1]);
      }
    }
    if NewOnesRise(freqs) {
      forall f | f in freqs && DecFreq(freqs, f).Some? ensures DecFreq(freqs, f).value < f {
        var k := Find(freqs, f);
        FindFirst(freqs, k);
      }
    }
  }

  /** A list from the highest frequency down turns the directions round. */
  lemma FallingListTurnsRound(freqs: seq<nat>)
    requires freqs == [2, 1]
    ensures IncFreq(freqs, 2) == Some(1) && DecFreq(freqs, 1) == Some(2)
  {
    assert freqs[0] == 2 && freqs[1] == 1;
  }

  // --- the search ---

  /** Some node active, at a known frequency. */
  predicate ValidConfig(freqs: seq<nat>, c: Config) { NumActive(c.mask) > 0 && c.freq in freqs }

  /** There is a second node or a second frequency to choose. */
  predicate HasRoom(freqs: seq<nat>, c: Config) { |c.mask| >= 2 || |freqs| >= 2 }

  predicate Tunable(freqs: seq<nat>, c: Config) { ValidConfig(freqs, c) && HasRoom(freqs, c) }

  /** One node more or less at the same frequency, or the next frequency of the list on the same nodes. */
  predicate OneStep(freqs: seq<nat>, a: Config, b: Config, dim: Dimension, dir: Direction)
    requires a.freq in freqs
  {
    match dim
    case NumNodes =>
      && a.freq == b.freq && |a.mask| == |b.mask|
      && NumActive(b.mask) == NumActive(a.mask) + if dir == Up then 1 else -1
    case Frequency =>
      && a.mask == b.mask
      && (if dir == Up then IncFreq(freqs, a.freq) else DecFreq(freqs, a.freq)) == Some(b.freq)
  }

  /** No step is left in the given dimension and direction. */
  predicate Exhausted(freqs: seq<nat>, c: Config, dim: Dimension, dir: Direction)
    requires c.freq in freqs
  {
    match (dim, dir)
    case (NumNodes, Up) => NumActive(c.mask) == |c.mask|
    case (NumNodes, Down) => NumActive(c.mask) == 1
    case (Frequency, Up) => IncFreq(freqs, c.freq) == None
    case (Frequency, Down) => DecFreq(freqs, c.freq) == None
  }

  function Flip(dir: Direction): Direction { if dir == Up then Down else Up }

  function Other(dim: Dimension): Dimension { if dim == NumNodes then Frequency else NumNodes }

  /** One change of direction: up and down in one dimension, then on to the other. */
  function Turn(at: (Dimension, Direction)): (Dimension, Direction) {
    (if Flip(at.1) == Up then Other(at.0) else at.0, Flip(at.1))
  }

  /** Dimension and direction after `turns` changes of direction. */
  function Turned(at: (Dimension, Direction), turns: nat): (Dimension, Direction) {
    if turns == 0 then at else Turn(Turned(at, turns - 1))
  }

  /** Four consecutive directions are all there are. */
  lemma CycleCoversAll(at: (Dimension, Direction), d: (Dimension, Direction))
    ensures d == Turned(at, 0) || d == Turned(at, 1) || d == Turned(at, 2) || d == Turned(at, 3)
  {
    assert Turned(at, 1) == Turn(at);
    assert Turned(at, 2) == Turn(Turn(at));
    assert Turned(at, 3) == Turn(Turn(Turn(at)));
    assert d.0 == at.0 || d.0 == Other(at.0);
    assert d.1 == at.1 || d.1 == Flip(at.1);
  }

  /** Where there is room, some direction is open; where there is none, all are exhausted. */
  lemma OpenIffRoom(freqs: seq<nat>, c: Config) returns (d: (Dimension, Direction))
    requires ValidConfig(freqs, c)
    ensures HasRoom(freqs, c) ==> !Exhausted(freqs, c, d.0, d.1)
    ensures !HasRoom(freqs, c) ==> forall e: (Dimension, Direction) :: Exhausted(freqs, c, e.0, e.1)
  {
    ActiveMono(c.mask, 0, |c.mask|);
    d := if |c.mask| >= 2 then (NumNodes, if NumActive(c.mask) == 1 then Up else Down)
         else (Frequency, if Find(freqs, c.freq) == 0 then Up else Down);
  }

  /** One of four consecutive directions is open exactly when there is room. */
  lemma SomeDirectionIsOpen(freqs: seq<nat>, c: Config, at: (Dimension, Direction))
    requires ValidConfig(freqs, c)
    ensures HasRoom(freqs, c) <==> exists k: nat :: k <= 3 && !Exhausted(freqs, c, Turned(at, k).0, Turned(at, k).1)
  {
    var d := OpenIffRoom(freqs, c);
    CycleCoversAll(at, d);
    if HasRoom(freqs, c) && Turned(at, 0) != d && Turned(at, 1) != d && Turned(at, 2) != d {
      assert Turned(at, 3) == d;
    }
  }

  /** Without room the search finds no step, however often it turns. */
  lemma NoRoomNoStep(freqs: seq<nat>, c: Config, at: (Dimension, Direction), turns: nat)
    requires ValidConfig(freqs, c) && !HasRoom(freqs, c)
    ensures Exhausted(freqs, c, Turned(at, turns).0, Turned(at, turns).1)
  {
    var d := OpenIffRoom(freqs, c);
  }

  /** The search settled on the first direction, from `start` on, that is still open. */
  ghost predicate FirstOpen(freqs: seq<nat>, c: Config, start: (Dimension, Direction), turns: nat, at: (Dimension, Direction))
    requires c.freq in freqs
  {
    && at == Turned(start, turns) && !Exhausted(freqs, c, at.0, at.1)
    && forall k: nat :: k < turns ==> Exhausted(freqs, c, Turned(start, k).0, Turned(start, k).1)
  }

  method TryStep(freqs: seq<nat>, c: Config, dim: Dimension, dir: Direction) returns (r: Option<Config>)
    requires ValidConfig(freqs, c)
    ensures r.None? <==> Exhausted(freqs, c, dim, dir)
    ensures r.Some? ==> ValidConfig(freqs, r.value) && OneStep(freqs, c, r.value, dim, dir)
    ensures r.Some? && HasRoom(freqs, c) ==> HasRoom(freqs, r.value)
    ensures r.Some? && PrefixMask(c.mask) ==> PrefixMask(r.value.mask)
  {
    if dim == NumNodes {
      var n: Option<seq<bool>>;
      if dir == Up {
        n := IncMask(c.mask);
      } else {
        n := DecMask(c.mask);
      }
      return if n.Some? then Some(c.(mask := n.value)) else None;
    } else {
      var n := if dir == Up then IncFreq(freqs, c.freq) else DecFreq(freqs, c.freq);
      return if n.Some? then Some(c.(freq := n.value)) else None;
    }
  }

  // --- the tuner ---

  /** A configuration and the score it reached. */
  datatype Observation = Observation(config: Config, score: real)

  /** What the tuner knows: the recorded best, and what it started from and saw since the objective
      last changed. */
  datatype Memory<Objective> = Memory(objective: Objective, best: Config, score: real,
                                      base: real, held: Config, seen: seq<Observation>)

  /** Starting over for another objective: the configuration is kept, its score forgotten. */
  ghost function Refocused<Objective>(mem: Memory<Objective>, obj: Objective): Memory<Objective> {
    if obj == mem.objective then mem else Memory(obj, mem.best, -1.0, -1.0, mem.best, [])
  }

  /** Taking in one observation. */
  ghost function Observe<Objective>(mem: Memory<Objective>, config: Config, score: real, obj: Objective): Memory<Objective> {
    var start := Refocused(mem, obj);
    var noted := start.(seen := start.seen + [Observation(config, score)]);
    if score > start.score then noted.(best := config, score := score) else noted
  }

  /** The observation was made, and no earlier one scored as high. */
  predicate FirstSeen(seen: seq<Observation>, o: Observation) {
    exists i :: 0 <= i < |seen| && seen[i] == o && forall j :: 0 <= j < i ==> seen[j].score < o.score
  }

  lemma FirstSeenNext(seen: seq<Observation>, o: Observation, next: Observation)
    ensures FirstSeen(seen, o) ==> FirstSeen(seen + [next], o)
    ensures (forall i :: 0 <= i < |seen| ==> seen[i].score < next.score) ==> FirstSeen(seen + [next], next)
  {
    var all := seen + [next];
    assert all[|seen|] == next;
    if FirstSeen(seen, o) {
      var i :| 0 <= i < |seen| && seen[i] == o && forall j :: 0 <= j < i ==> seen[j].score < o.score;
      assert all[i] == o;
    }
  }

  /** The recorded score is the maximum of the base and all scores seen; the recorded configuration
      is where it was seen, or the one held at the start if nothing exceeded the base. */
  predicate Summarizes<Objective>(mem: Memory<Objective>) {
    && mem.base <= mem.score
    && (forall i :: 0 <= i < |mem.seen| ==> mem.seen[i].score <= mem.score)
    && (mem.score > mem.base ==> FirstSeen(mem.seen, Observation(mem.best, mem.score)))
    && (mem.score == mem.base ==> mem.best == mem.held)
  }

  lemma ObserveSummarizes<Objective>(mem: Memory<Objective>, config: Config, score: real, obj: Objective)
    requires Summarizes(mem)
    ensures Summarizes(Observe(mem, config, score, obj))
  {
    var start := Refocused(mem, obj);
    var all := start.seen + [Observation(config, score)];
    assert Observe(mem, config, score, obj).seen == all;
    FirstSeenNext(start.seen, Observation(start.best, start.score), Observation(config, score));
  }

  /** The recorded best is the maximum of the scores seen, and was seen with that score. */
  predicate RecordsMaximum<Objective>(mem: Memory<Objective>) {
    && Observation(mem.best, mem.score) in mem.seen
    && forall i :: 0 <= i < |mem.seen| ==> mem.seen[i].score <= mem.score
  }

  predicate Beaten(seen: seq<Observation>, base: real) { exists i :: 0 <= i < |seen| && seen[i].score > base }

  /** Exactly when the record is a seen maximum: some score beat the base, or the configuration held
      at the start was seen with just that score. */
  lemma RecordsMaximumIff<Objective>(mem: Memory<Objective>)
    requires Summarizes(mem)
    ensures RecordsMaximum(mem) <==> Beaten(mem.seen, mem.base) || Observation(mem.held, mem.base) in mem.seen
  {
    if RecordsMaximum(mem) && mem.score > mem.base {
      var i :| 0 <= i < |mem.seen| && mem.seen[i] == Observation(mem.best, mem.score);
      assert mem.seen[i].score > mem.base;
    }
  }

  /** A start from an unset score. */
  function Unset<Objective>(objective: Objective, config: Config, unset: real): Memory<Objective> {
    Memory(objective, config, unset, unset, config, [])
  }

  /** An unset score that happens to be large hides every score below it; a small one does no harm. */
  lemma UnsetScoreMatters<Objective>(objective: Objective, config: Config, tried: Config)
    ensures !RecordsMaximum(Observe(Unset(objective, config, 100.0), tried, 5.0, objective))
    ensures RecordsMaximum(Observe(Unset(objective, config, -7.0), tried, 3.0, objective))
  {
    var low := Observe(Unset(objective, config, -7.0), tried, 3.0, objective);
    assert low.seen[0] == Observation(tried, 3.0);
  }

  // --- whole runs ---

  /** The memory after `n` rounds of trying a configuration and feeding back its score. */
  ghost function Remember<Objective>(mem: Memory<Objective>, tried: seq<Config>, feedback: seq<(real, Objective)>, n: nat)
    : Memory<Objective>
    requires n <= |tried| && n <= |feedback|
  {
    if n == 0 then mem
    else Observe(Remember(mem, tried, feedback, n - 1), tried[n - 1], feedback[n - 1].0, feedback[n - 1].1)
  }

  lemma {:induction false} RememberPrefix<Objective>(mem: Memory<Objective>, tried: seq<Config>, more: seq<Config>,
                                                     feedback: seq<(real, Objective)>, n: nat)
    requires n <= |tried| && n <= |feedback|
    ensures Remember(mem, tried + more, feedback, n) == Remember(mem, tried, feedback, n)
  {
    if n > 0 {
      RememberPrefix(mem, tried, more, feedback, n - 1);
    }
  }

  /** The objective was another one in some round. */
  predicate Changed<Objective(==)>(objective: Objective, feedback: seq<(real, Objective)>, n: nat)
    requires n <= |feedback|
  {
    exists i :: 0 <= i < n && feedback[i].1 != objective
  }

  /** The observations of rounds `from` to `to`. */
  function Rounds<Objective>(tried: seq<Config>, feedback: seq<(real, Objective)>, from: nat, to: nat): seq<Observation>
    requires from <= to <= |tried| && to <= |feedback|
  {
    seq(to - from, k requires 0 <= k < to - from => Observation(tried[from + k], feedback[from + k].0))
  }

  /** The objective changed in round `c` and has been the same since. */
  predicate LastChange<Objective(==)>(objective: Objective, feedback: seq<(real, Objective)>, c: nat, n: nat)
    requires c < n <= |feedback|
  {
    && feedback[c].1 != (if c == 0 then objective else feedback[c - 1].1)
    && forall k :: c < k < n ==> feedback[k].1 == feedback[c].1
  }

  lemma {:induction false} RememberObjective<Objective>(mem: Memory<Objective>, tried: seq<Config>,
                                                        feedback: seq<(real, Objective)>, n: nat)
    requires n <= |tried| && n <= |feedback|
    ensures Remember(mem, tried, feedback, n).objective == if n == 0 then mem.objective else feedback[n - 1].1
  {
  }

  lemma RoundsNext<Objective>(tried: seq<Config>, feedback: seq<(real, Objective)>, from: nat, n: nat)
    requires from < n <= |tried| && n <= |feedback|
    ensures Rounds(tried, feedback, from, n) ==
            Rounds(tried, feedback, from, n - 1) + [Observation(tried[n - 1], feedback[n - 1].0)]
  {
  }

  /** As long as the objective stays the same, everything counts from the start. */
  lemma {:induction false} RememberUnchanged<Objective>(mem: Memory<Objective>, tried: seq<Config>,
                                                        feedback: seq<(real, Objective)>, n: nat)
    requires n <= |tried| && n <= |feedback| && !Changed(mem.objective, feedback, n)
    ensures var r := Remember(mem, tried, feedback, n);
            r.base == mem.base && r.held == mem.held && r.seen == mem.seen + Rounds(tried, feedback, 0, n)
  {
    if n > 0 {
      RememberUnchanged(mem, tried, feedback, n - 1);
      assert feedback[n - 1].1 == mem.objective;
      assert n > 1 ==> feedback[n - 2].1 == mem.objective;
      SameObjectiveNext(mem, tried, feedback, n);
      RoundsNext(tried, feedback, 0, n);
    }
  }

  /** A change in the last round leaves that round only. */
  lemma ChangedJustNow<Objective>(mem: Memory<Objective>, tried: seq<Config>, feedback: seq<(real, Objective)>, c: nat)
    requires c < |tried| && c < |feedback|
    requires feedback[c].1 != if c == 0 then mem.objective else feedback[c - 1].1
    ensures var r := Remember(mem, tried, feedback, c + 1);
            r.base == -1.0 && r.held == Remember(mem, tried, feedback, c).best && r.seen == Rounds(tried, feedback, c, c + 1)
  {
    RememberObjective(mem, tried, feedback, c);
    assert Remember(mem, tried, feedback, c + 1).seen == [Observation(tried[c], feedback[c].0)];
  }

  /** A round without a change is added to those since the last one. */
  lemma SameObjectiveNext<Objective>(mem: Memory<Objective>, tried: seq<Config>, feedback: seq<(real, Objective)>, n: nat)
    requires 0 < n <= |tried| && n <= |feedback|
    requires feedback[n - 1].1 == if n == 1 then mem.objective else feedback[n - 2].1
    ensures var r, s := Remember(mem, tried, feedback, n), Remember(mem, tried, feedback, n - 1);
            r.base == s.base && r.held == s.held && r.seen == s.seen + [Observation(tried[n - 1], feedback[n - 1].0)]
  {
    RememberObjective(mem, tried, feedback, n - 1);
  }

  lemma ChangedBefore<Objective>(objective: Objective, feedback: seq<(real, Objective)>, n: nat)
    requires 0 < n <= |feedback| && Changed(objective, feedback, n)
    requires feedback[n - 1].1 == if n == 1 then objective else feedback[n - 2].1
    ensures n > 1 && Changed(objective, feedback, n - 1)
  {
    var i :| 0 <= i < n && feedback[i].1 != objective;
    assert n > 1;
    assert feedback[if i == n - 1 then n - 2 else i].1 != objective;
  }

  /** After a change only the rounds since the last one count, from a base of -1. */
  lemma {:induction false} RememberChanged<Objective>(mem: Memory<Objective>, tried: seq<Config>,
                                                      feedback: seq<(real, Objective)>, n: nat) returns (c: nat)
    requires n <= |tried| && n <= |feedback| && Changed(mem.objective, feedback, n)
    ensures c < n && LastChange(mem.objective, feedback, c, n)
    ensures var r := Remember(mem, tried, feedback, n);
            r.base == -1.0 && r.held == Remember(mem, tried, feedback, c).best && r.seen == Rounds(tried, feedback, c, n)
  {
    if feedback[n - 1].1 != (if n == 1 then mem.objective else feedback[n - 2].1) {
      c := n - 1;
      ChangedJustNow(mem, tried, feedback, c);
    } else {
      ChangedBefore(mem.objective, feedback, n);
      c := RememberChanged(mem, tried, feedback, n - 1);
      SameObjectiveNext(mem, tried, feedback, n);
      RoundsNext(tried, feedback, c, n);
    }
  }

  lemma {:induction false} RememberSummarizes<Objective>(mem: Memory<Objective>, tried: seq<Config>,
                                                         feedback: seq<(real, Objective)>, n: nat)
    requires n <= |tried| && n <= |feedback| && Summarizes(mem)
    ensures Summarizes(Remember(mem, tried, feedback, n))
  {
    if n > 0 {
      RememberSummarizes(mem, tried, feedback, n - 1);
      ObserveSummarizes(Remember(mem, tried, feedback, n - 1), tried[n - 1], feedback[n - 1].0, feedback[n - 1].1);
    }
  }

  /** The exact condition for a run from an unset score whose objective never changes. */
  lemma RunUnchanged<Objective>(objective: Objective, config: Config, unset: real, tried: seq<Config>,
                                feedback: seq<(real, Objective)>, n: nat)
    requires n <= |tried| && n <= |feedback| && !Changed(objective, feedback, n)
    ensures RecordsMaximum(Remember(Unset(objective, config, unset), tried, feedback, n)) <==>
            Beaten(Rounds(tried, feedback, 0, n), unset) || Observation(config, unset) in Rounds(tried, feedback, 0, n)
  {
    var mem := Unset(objective, config, unset);
    RememberSummarizes(mem, tried, feedback, n);
    RememberUnchanged(mem, tried, feedback, n);
    assert mem.seen + Rounds(tried, feedback, 0, n) == Rounds(tried, feedback, 0, n);
    RecordsMaximumIff(Remember(mem, tried, feedback, n));
  }

  /** The exact condition for a run whose objective changed: it starts over from -1 with the round of the last
      change, so a score above -1 in that round is enough. */
  lemma RunChanged<Objective>(objective: Objective, config: Config, unset: real, tried: seq<Config>,
                              feedback: seq<(real, Objective)>, n: nat) returns (c: nat)
    requires n <= |tried| && n <= |feedback| && Changed(objective, feedback, n)
    ensures c < n && LastChange(objective, feedback, c, n)
    ensures var held := Remember(Unset(objective, config, unset), tried, feedback, c).best;
            RecordsMaximum(Remember(Unset(objective, config, unset), tried, feedback, n)) <==>
            Beaten(Rounds(tried, feedback, c, n), -1.0) || Observation(held, -1.0) in Rounds(tried, feedback, c, n)
    ensures feedback[c].0 > -1.0 ==> RecordsMaximum(Remember(Unset(objective, config, unset), tried, feedback, n))
  {
    var mem := Unset(objective, config, unset);
    RememberSummarizes(mem, tried, feedback, n);
    c := RememberChanged(mem, tried, feedback, n);
    RecordsMaximumIff(Remember(mem, tried, feedback, n));
    assert Rounds(tried, feedback, c, n)[0].score == feedback[c].0;
  }

  class SimpleCoordinateDescent<Objective(==)> {
    const freqs: seq<nat>
    var dim: Dimension
    var dir: Direction
    var objective: Objective
    var best: Config
    var bestScore: real
    /** The score and the configuration held when the objective last changed, and what was seen since. */
    ghost var base: real
    ghost var held: Config
    ghost var seen: seq<Observation>

    ghost function Mem(): Memory<Objective>
      reads this
    {
      Memory(objective, best, bestScore, base, held, seen)
    }

    ghost predicate Valid()
      reads this
    {
      Tunable(freqs, best) && Summarizes(Mem())
    }

    /** The original leaves the score of the starting configuration unset: any number may be there. */
    constructor (freqs: seq<nat>, config: Config, objective: Objective, unset: real)
      requires Tunable(freqs, config)
      ensures Valid() && this.freqs == freqs && Mem() == Unset(objective, config, unset)
      ensures dim == NumNodes && dir == Down
    {
      this.freqs := freqs;
      dim, dir := NumNodes, Down;
      this.objective := objective;
      best := config;
      bestScore := unset;
      base, held, seen := unset, config, [];
    }

    method NextDirection()
      modifies this`dim, this`dir
      ensures (dim, dir) == Turn((old(dim), old(dir)))
      ensures dir != old(dir) && (dim != old(dim) <==> dir == Up)
    {
      dir := Flip(dir);
      if dir == Up {
        dim := Other(dim);
      }
    }

    /** Takes in one observation and proposes the next configuration: one step away from the best
        one, found after at most three further changes of direction. */
    method Next(config: Config, score: real, obj: Objective) returns (res: Config, turns: nat)
      requires Valid() && Tunable(freqs, config)
      modifies this
      ensures Valid() && Mem() == Observe(old(Mem()), config, score, obj)
      ensures Tunable(freqs, res) && OneStep(freqs, best, res, dim, dir) && turns <= 3
      ensures PrefixMask(best.mask) ==> PrefixMask(res.mask)
      ensures var from := (old(dim), old(dir));
              FirstOpen(freqs, best, if score < Refocused(old(Mem()), obj).score then Turn(from) else from, turns, (dim, dir))
    {
      ObserveSummarizes(Mem(), config, score, obj);
      if obj != objective {
        bestScore := -1.0;
        objective := obj;
        base, held, seen := -1.0, best, [];
      }
      if score < bestScore {
        NextDirection();
      }
      if score > bestScore {
        bestScore := score;
        best := config;
      }
      seen := seen + [Observation(config, score)];
      res, turns := Search();
    }

    method Search() returns (res: Config, turns: nat)
      requires Valid()
      modifies this`dim, this`dir
      ensures Tunable(freqs, res) && OneStep(freqs, best, res, dim, dir) && turns <= 3
      ensures PrefixMask(best.mask) ==> PrefixMask(res.mask)
      ensures FirstOpen(freqs, best, (old(dim), old(dir)), turns, (dim, dir))
    {
      ghost var start := (dim, dir);
      turns := 0;
      SomeDirectionIsOpen(freqs, best, start);
      while true
        invariant turns <= 3 && (dim, dir) == Turned(start, turns)
        invariant forall k: nat :: k < turns ==> Exhausted(freqs, best, Turned(start, k).0, Turned(start, k).1)
        decreases 3 - turns
      {
        var step := TryStep(freqs, best, dim, dir);
        if step.Some? {
          return step.value, turns;
        }
        NextDirection();
        turns := turns + 1;
      }
    }
  }

  predicate AllTunable(freqs: seq<nat>, tried: seq<Config>) { forall i :: 0 <= i < |tried| ==> Tunable(freqs, tried[i]) }

  predicate AllPrefixes(tried: seq<Config>) { forall i :: 0 <= i < |tried| ==> PrefixMask(tried[i].mask) }

  lemma TriedNext(freqs: seq<nat>, tried: seq<Config>, next: Config)
    ensures AllTunable(freqs, tried) && Tunable(freqs, next) ==> AllTunable(freqs, tried + [next])
    ensures AllPrefixes(tried) && PrefixMask(next.mask) ==> AllPrefixes(tried + [next])
  {
  }

  lemma ObservedBest<Objective>(mem: Memory<Objective>, config: Config, score: real, obj: Objective)
    ensures Observe(mem, config, score, obj).best == config || Observe(mem, config, score, obj).best == mem.best
  {
  }

  /** One round of a run. */
  method Round<Objective(==)>(tuner: SimpleCoordinateDescent<Objective>, tried: seq<Config>, feedback: seq<(real, Objective)>,
                              ghost start: Memory<Objective>)
    returns (next: Config)
    requires tuner.Valid() && 0 < |tried| <= |feedback| && Tunable(tuner.freqs, tried[|tried| - 1])
    requires tuner.Mem() == Remember(start, tried, feedback, |tried| - 1)
    modifies tuner
    ensures tuner.Valid() && Tunable(tuner.freqs, next)
    ensures old(PrefixMask(tuner.best.mask)) && PrefixMask(tried[|tried| - 1].mask) ==>
              PrefixMask(tuner.best.mask) && PrefixMask(next.mask)
    ensures tuner.Mem() == Remember(start, tried + [next], feedback, |tried|)
  {
    var i := |tried| - 1;
    ObservedBest(tuner.Mem(), tried[i], feedback[i].0, feedback[i].1);
    var turns;
    next, turns := tuner.Next(tried[i], feedback[i].0, feedback[i].1);
    RememberPrefix(start, tried, [next], feedback, i + 1);
  }

  /** A whole tuning run: each proposal is tried, scored and fed back. Every proposal has an active
      node and a known frequency, prefix masks stay prefixes, and the tuner's memory is exactly what
      the rounds leave. */
  method Tune<Objective(==)>(tuner: SimpleCoordinateDescent<Objective>, start: Config, feedback: seq<(real, Objective)>)
    returns (tried: seq<Config>)
    requires tuner.Valid() && Tunable(tuner.freqs, start)
    modifies tuner
    ensures tuner.Valid()
    ensures |tried| == |feedback| + 1 && tried[0] == start && AllTunable(tuner.freqs, tried)
    ensures old(PrefixMask(tuner.best.mask)) && PrefixMask(start.mask) ==> PrefixMask(tuner.best.mask) && AllPrefixes(tried)
    ensures tuner.Mem() == Remember(old(tuner.Mem()), tried, feedback, |feedback|)
    ensures RecordsMaximum(tuner.Mem()) <==>
            Beaten(tuner.seen, tuner.base) || Observation(tuner.held, tuner.base) in tuner.seen
  {
    tried := [start];
    for i := 0 to |feedback|
      invariant tuner.Valid() && |tried| == i + 1 && tried[0] == start && AllTunable(tuner.freqs, tried)
      invariant old(PrefixMask(tuner.best.mask)) && PrefixMask(start.mask) ==> PrefixMask(tuner.best.mask) && AllPrefixes(tried)
      invariant tuner.Mem() == Remember(old(tuner.Mem()), tried, feedback, i)
    {
      var next := Round(tuner, tried, feedback, old(tuner.Mem()));
      TriedNext(tuner.freqs, tried, next);
      tried := tried + [next];
    }
    RecordsMaximumIff(tuner.Mem());
  }
}
