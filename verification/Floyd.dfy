/** The distinct-row draw of the sampler (Floyd's algorithm). */
module Floyd {
  import opened Wrappers
  import opened Counting
  import opened SplitMix
  import opened Words

  /** One step for position `j`: a draw that is already chosen is replaced by `j` itself. */
  function Pick(chosen: set<int>, t: int, j: int): set<int> {
    if t in chosen then chosen + {j} else chosen + {t}
  }

  /** The set chosen by the draws `ts`, the i-th of which is made for position `lo + i`. */
  ghost function Chosen(lo: nat, ts: seq<int>): set<int> {
    if ts == [] then {}
    else Pick(Chosen(lo, ts[..|ts| - 1]), ts[|ts| - 1], lo + |ts| - 1)
  }

  /** The i-th draw lies in 0..lo + i, both included. */
  ghost predicate IsDrawVector(lo: nat, ts: seq<int>) {
    forall i :: 0 <= i < |ts| ==> 0 <= ts[i] <= lo + i
  }

  lemma DrawVectorPrefix(lo: nat, ts: seq<int>)
    requires ts != [] && IsDrawVector(lo, ts)
    ensures IsDrawVector(lo, ts[..|ts| - 1])
  {
  }

  /** Every run of k draws picks exactly k positions below lo + k. */
  lemma {:induction false} ChosenSize(lo: nat, ts: seq<int>)
    requires IsDrawVector(lo, ts)
    ensures Chosen(lo, ts) <= Range(0, lo + |ts|)
    ensures |Chosen(lo, ts)| == |ts|
  {
    if ts == [] {
    } else {
      DrawVectorPrefix(lo, ts);
      ChosenSize(lo, ts[..|ts| - 1]);
    }
  }

  ghost function Factorial(k: nat): nat {
    if k == 0 then 1 else k * Factorial(k - 1)
  }

  // ---------- Uniformity over choice vectors ----------

  ghost function Extend(vs: set<seq<int>>, ts: set<int>): set<seq<int>> {
    set v, t | v in vs && t in ts :: v + [t]
  }

  /** All choice vectors for positions lo, lo + 1, ..., lo + k - 1. */
  ghost function Choices(lo: nat, k: nat): (vs: set<seq<int>>)
  {
    if k == 0 then {[]} else Extend(Choices(lo, k - 1), Range(0, lo + k))
  }

  lemma ExtendMember(vs: set<seq<int>>, ts: set<int>, u: seq<int>, t: int)
    ensures u + [t] in Extend(vs, ts) <==> u in vs && t in ts
  {
    if u + [t] in Extend(vs, ts) {
      var u', t' :| u' in vs && t' in ts && u + [t] == u' + [t'];
      assert (u + [t])[..|u|] == u && (u' + [t'])[..|u'|] == u';
    }
  }

  lemma {:induction false} ChoicesMember(lo: nat, k: nat, v: seq<int>)
    ensures v in Choices(lo, k) <==> |v| == k && IsDrawVector(lo, v)
  {
    if k == 0 || v == [] {
    } else {
      var u, t := v[..|v| - 1], v[|v| - 1];
      assert v == u + [t];
      ExtendMember(Choices(lo, k - 1), Range(0, lo + k), u, t);
      ChoicesMember(lo, k - 1, u);
      assert IsDrawVector(lo, v) <==> IsDrawVector(lo, u) && 0 <= t <= lo + |u|;
    }
  }

  /** The choice vectors that make Floyd's draw pick exactly the set `s`. */
  ghost function VectorsFor(lo: nat, k: nat, s: set<int>): set<seq<int>> {
    set v | v in Choices(lo, k) && Chosen(lo, v) == s
  }

  /** What must have been chosen before the last draw `t` completed `s`. */
  ghost function Before(s: set<int>, t: int, j: int): set<int> {
    if j in s then s - {j} else s - {t}
  }

  /** The last step completes `s` exactly when its draw lies in `s` and the earlier steps chose
      the rest of `s`. */
  lemma LastStep(c: set<int>, t: int, j: int, s: set<int>)
    requires forall x :: x in c ==> x < j
    requires t <= j
    ensures Pick(c, t, j) == s <==> t in s && c == Before(s, t, j)
  {
    if t in s && c == Before(s, t, j) {
      if j in s && t != j {
        assert t in c;
      }
      assert Pick(c, t, j) == s;
    }
    if Pick(c, t, j) == s {
      assert c == Before(s, t, j);
    }
  }

  lemma ChosenExtend(lo: nat, ts: seq<int>, t: int)
    ensures Chosen(lo, ts + [t]) == Pick(Chosen(lo, ts), t, lo + |ts|)
  {
    assert (ts + [t])[..|ts|] == ts;
  }

  lemma DrawVectorExtend(lo: nat, u: seq<int>, t: int)
    ensures IsDrawVector(lo, u + [t]) <==> IsDrawVector(lo, u) && 0 <= t <= lo + |u|
  {
    var v := u + [t];
    assert v[|u|] == t && forall i :: 0 <= i < |u| ==> v[i] == u[i];
  }

  lemma VectorsForMember(lo: nat, k: nat, s: set<int>, v: seq<int>)
    ensures v in VectorsFor(lo, k, s) <==> |v| == k && IsDrawVector(lo, v) && Chosen(lo, v) == s
  {
    hide IsDrawVector, Chosen;
    ChoicesMember(lo, k, v);
  }

  lemma VectorsForStep(lo: nat, k: nat, s: set<int>, u: seq<int>, t: int)
    requires k > 0
    ensures u + [t] in VectorsFor(lo, k, s)
       <==> t in s && 0 <= t < lo + k && u in VectorsFor(lo, k - 1, Before(s, t, lo + k - 1))
  {
    hide VectorsFor, IsDrawVector, Chosen, Pick, Before;
    VectorsForMember(lo, k, s, u + [t]);
    VectorsForMember(lo, k - 1, Before(s, t, lo + k - 1), u);
    DrawVectorExtend(lo, u, t);
    ChosenExtend(lo, u, t);
    if |u| == k - 1 && IsDrawVector(lo, u) && 0 <= t < lo + k {
      ChosenSize(lo, u);
      LastStep(Chosen(lo, u), t, lo + k - 1, s);
    }
  }

  ghost function Last(v: seq<int>): int { if v == [] then 0 else v[|v| - 1] }

  /** The choice vectors for `s` whose last draw is `t` are those for the rest of `s`, each
      extended by `t`. */
  lemma LastDrawFibre(lo: nat, k: nat, s: set<int>, t: int)
    requires k > 0 && s <= Range(0, lo + k) && t in s
    ensures |Fibre(VectorsFor(lo, k, s), Last, t)| == |VectorsFor(lo, k - 1, Before(s, t, lo + k - 1))|
  {
    var prev := VectorsFor(lo, k - 1, Before(s, t, lo + k - 1));
    var add := (u: seq<int>) => u + [t];
    forall u, u' | u in prev && u' in prev && add(u) == add(u') ensures u == u' {
      assert add(u)[..|u|] == u && add(u')[..|u'|] == u';
    }
    ImageSize(prev, add);
    var fibre := Fibre(VectorsFor(lo, k, s), Last, t);
    forall v ensures v in fibre <==> v in Image(prev, add) {
      if v in fibre {
        ChoicesMember(lo, k, v);
        var u := v[..k - 1];
        assert v == u + [t];
        VectorsForStep(lo, k, s, u, t);
        assert add(u) == v;
      }
      if v in Image(prev, add) {
        var u :| u in prev && add(u) == v;
        VectorsForStep(lo, k, s, u, t);
      }
    }
    assert fibre == Image(prev, add);
  }

  lemma NoPositions(lo: nat)
    ensures VectorsFor(lo, 0, {}) == {[]}
  {
  }

  /** If every possible last draw leaves `c` vectors for the rest of `s`, then `s` has k * c. */
  lemma VectorsByLastDraw(lo: nat, k: nat, s: set<int>, c: nat)
    requires k > 0 && s <= Range(0, lo + k) && |s| == k
    requires forall t :: t in s ==> |VectorsFor(lo, k - 1, Before(s, t, lo + k - 1))| == c
    ensures |VectorsFor(lo, k, s)| == k * c
  {
    var vs := VectorsFor(lo, k, s);
    forall v | v in vs ensures Last(v) in s {
      ChoicesMember(lo, k, v);
      assert v == v[..k - 1] + [Last(v)];
      VectorsForStep(lo, k, s, v[..k - 1], Last(v));
    }
    hide VectorsFor;
    forall t | t in s ensures |Fibre(vs, Last, t)| == c {
      LastDrawFibre(lo, k, s, t);
    }
    CountFibres(vs, Last, s, c);
  }

  /** Floyd's draw is uniform: every k-element subset of 0..lo + k is picked by exactly k!
      choice vectors. */
  lemma {:induction false} FloydUniform(lo: nat, k: nat, s: set<int>)
    requires s <= Range(0, lo + k) && |s| == k
    ensures |VectorsFor(lo, k, s)| == Factorial(k)
  {
    if k == 0 {
      assert s == {};
      NoPositions(lo);
    } else {
      hide VectorsFor;
      forall t | t in s ensures |VectorsFor(lo, k - 1, Before(s, t, lo + k - 1))| == Factorial(k - 1) {
        FloydUniform(lo, k - 1, Before(s, t, lo + k - 1));
      }
      VectorsByLastDraw(lo, k, s, Factorial(k - 1));
    }
  }

  // ---------- Uniformity over accepted 64-bit words ----------

  lemma ExtendSize(vs: set<seq<int>>, ts: set<int>)
    ensures |Extend(vs, ts)| == |ts| * |vs|
  {
    var all := Extend(vs, ts);
    forall v | v in all ensures Last(v) in ts {
      var u, t :| u in vs && t in ts && v == u + [t];
      assert Last(u + [t]) == t;
    }
    forall t | t in ts ensures |Fibre(all, Last, t)| == |vs| {
      var add := (u: seq<int>) => u + [t];
      forall u, u' | u in vs && u' in vs && add(u) == add(u') ensures u == u' {
        assert add(u)[..|u|] == u && add(u')[..|u'|] == u';
      }
      ImageSize(vs, add);
      forall v ensures v in Fibre(all, Last, t) <==> v in Image(vs, add) {
        if v in Fibre(all, Last, t) {
          var u, t' :| u in vs && t' in ts && v == u + [t'];
          assert add(u) == v;
        }
        if v in Image(vs, add) {
          var u :| u in vs && add(u) == v;
          assert Last(v) == t && v == u + [t];
        }
      }
      assert Fibre(all, Last, t) == Image(vs, add);
    }
    CountFibres(all, Last, ts, |vs|);
  }

  /** The vectors of words that give exactly the draws `v`, the i-th of them with bound lo + i + 1. */
  ghost function WordVectorsFor(lo: nat, v: seq<int>): set<seq<int>>
    requires IsDrawVector(lo, v) && lo + |v| < TWO64
  {
    if v == [] then {[]}
    else
      DrawVectorPrefix(lo, v);
      Extend(WordVectorsFor(lo, v[..|v| - 1]), WordsFor(lo + |v|, v[|v| - 1]))
  }

  /** floor(2^64 / (lo + 1)) * ... * floor(2^64 / (lo + k)). */
  ghost function Weight(lo: nat, k: nat): nat {
    if k == 0 then 1
    else
      DivNonNegative(TWO64, lo + k);
      MulOrder(0, TWO64 / (lo + k), Weight(lo, k - 1));
      TWO64 / (lo + k) * Weight(lo, k - 1)
  }

  lemma {:induction false} WordVectorsSize(lo: nat, v: seq<int>)
    requires IsDrawVector(lo, v) && lo + |v| < TWO64
    ensures |WordVectorsFor(lo, v)| == Weight(lo, |v|)
  {
    if v == [] {
    } else {
      var u, t := v[..|v| - 1], v[|v| - 1];
      DrawVectorPrefix(lo, v);
      WordVectorsSize(lo, u);
      Unbiased(lo + |v|, t);
      ExtendSize(WordVectorsFor(lo, u), WordsFor(lo + |v|, t));
    }
  }

  ghost function DrawOf(x: int, bound: int): int {
    if 0 <= x < TWO64 && 0 < bound < TWO64 then High(x, bound) else -1
  }

  /** The draws a vector of words stands for. */
  ghost function DrawsOf(lo: nat, ws: seq<int>): seq<int> {
    if ws == [] then [] else DrawsOf(lo, ws[..|ws| - 1]) + [DrawOf(ws[|ws| - 1], lo + |ws|)]
  }

  lemma ExtendParts(vs: set<seq<int>>, ts: set<int>, w: seq<int>) returns (u: seq<int>, t: int)
    requires w in Extend(vs, ts)
    ensures u in vs && t in ts && w == u + [t]
  {
    u, t :| u in vs && t in ts && w == u + [t];
  }

  lemma NoDraws(lo: nat)
    ensures DrawsOf(lo, []) == []
  {
  }

  lemma DrawsOfStep(lo: nat, xs: seq<int>, x: int)
    ensures DrawsOf(lo, xs + [x]) == DrawsOf(lo, xs) + [DrawOf(x, lo + |xs| + 1)]
  {
    hide DrawOf;
    assert (xs + [x])[..|xs|] == xs;
  }

  lemma {:induction false} DrawsOfLength(lo: nat, ws: seq<int>)
    ensures |DrawsOf(lo, ws)| == |ws|
  {
    if ws == [] {
    } else {
      DrawsOfLength(lo, ws[..|ws| - 1]);
    }
  }

  lemma WordGives(bound: u64, r: u64, x: int)
    requires 0 < bound && r < bound && x in WordsFor(bound, r)
    ensures DrawOf(x, bound) == r
  {
    hide High, Accepted;
  }

  lemma {:induction false} WordVectorsDraw(lo: nat, v: seq<int>, ws: seq<int>)
    requires IsDrawVector(lo, v) && lo + |v| < TWO64 && ws in WordVectorsFor(lo, v)
    ensures DrawsOf(lo, ws) == v
  {
    hide WordsFor, DrawOf, DrawsOf, Extend;
    if v == [] {
      assert ws == [];
      NoDraws(lo);
    } else {
      var u, t := v[..|v| - 1], v[|v| - 1];
      DrawVectorPrefix(lo, v);
      var xs, x := ExtendParts(WordVectorsFor(lo, u), WordsFor(lo + |v|, t), ws);
      WordGives(lo + |v|, t, x);
      WordVectorsDraw(lo, u, xs);
      DrawsOfStep(lo, xs, x);
      DrawsOfLength(lo, xs);
      assert v == u + [t];
    }
  }

  /** All vectors of accepted words that make the sampler pick exactly the set `s`. */
  ghost function SampleVectorsFor(lo: nat, k: nat, s: set<int>): set<seq<int>>
    requires lo + k < TWO64
  {
    set v, ws | v in VectorsFor(lo, k, s) && IsDrawVector(lo, v) && |v| == k && ws in WordVectorsFor(lo, v) :: ws
  }

  lemma SampleFibre(lo: nat, k: nat, s: set<int>, v: seq<int>)
    requires lo + k < TWO64 && v in VectorsFor(lo, k, s) && IsDrawVector(lo, v) && |v| == k
    ensures Fibre(SampleVectorsFor(lo, k, s), (ws: seq<int>) => DrawsOf(lo, ws), v) == WordVectorsFor(lo, v)
  {
    var f := (ws: seq<int>) => DrawsOf(lo, ws);
    hide DrawsOf, WordVectorsFor, VectorsFor;
    forall ws ensures ws in Fibre(SampleVectorsFor(lo, k, s), f, v) <==> ws in WordVectorsFor(lo, v) {
      if ws in Fibre(SampleVectorsFor(lo, k, s), f, v) {
        var v' :| v' in VectorsFor(lo, k, s) && IsDrawVector(lo, v') && |v'| == k && ws in WordVectorsFor(lo, v');
        WordVectorsDraw(lo, v', ws);
      }
      if ws in WordVectorsFor(lo, v) {
        WordVectorsDraw(lo, v, ws);
      }
    }
  }

  /** The whole draw is uniform: every k-element subset of 0..lo + k is picked by the same number
      of vectors of accepted 64-bit words. */
  lemma SampleUniform(lo: nat, k: nat, s: set<int>)
    requires lo + k < TWO64
    requires s <= Range(0, lo + k) && |s| == k
    ensures |SampleVectorsFor(lo, k, s)| == Factorial(k) * Weight(lo, k)
  {
    var all := SampleVectorsFor(lo, k, s);
    var f := (ws: seq<int>) => DrawsOf(lo, ws);
    forall ws | ws in all ensures f(ws) in VectorsFor(lo, k, s) {
      var v :| v in VectorsFor(lo, k, s) && IsDrawVector(lo, v) && |v| == k && ws in WordVectorsFor(lo, v);
      WordVectorsDraw(lo, v, ws);
    }
    forall v | v in VectorsFor(lo, k, s) ensures |Fibre(all, f, v)| == Weight(lo, k) {
      ChoicesMember(lo, k, v);
      WordVectorsSize(lo, v);
      SampleFibre(lo, k, s, v);
    }
    FloydUniform(lo, k, s);
    CountFibres(all, f, VectorsFor(lo, k, s), Weight(lo, k));
  }

  // ---------- The sampler ----------

  predicate IsLeast(m: int, s: set<int>) {
    m in s && forall x :: x in s ==> m <= x
  }

  lemma {:induction false} LeastExists(s: set<int>) returns (m: int)
    requires s != {}
    ensures IsLeast(m, s)
    decreases s
  {
    m := Element(s);
    var rest := s - {m};
    if rest == {} {
    } else {
      var m' := LeastExists(rest);
      m := if m' < m then m' else m;
    }
    assert forall x :: x in s ==> x in rest || x in s - rest;
  }

  lemma LeastExistsHere(s: set<int>)
    requires s != {}
    ensures exists m :: IsLeast(m, s)
  {
    var m := LeastExists(s);
  }

  function Least(s: set<int>): (m: int)
    requires s != {}
    ensures IsLeast(m, s)
  {
    LeastExistsHere(s);
    var m :| IsLeast(m, s);
    m
  }

  predicate StrictlyIncreasing(q: seq<int>) {
    forall i, j :: 0 <= i < j < |q| ==> q[i] < q[j]
  }

  predicate AllBelow(q: seq<int>, n: int) {
    forall i :: 0 <= i < |q| ==> 0 <= q[i] < n
  }

  ghost predicate SameElements(q: seq<int>, s: set<int>) {
    forall x :: x in q <==> x in s
  }

  lemma PrependLeast(m: int, rest: seq<int>, s: set<int>)
    requires IsLeast(m, s) && SameElements(rest, s - {m}) && StrictlyIncreasing(rest)
    ensures SameElements([m] + rest, s) && StrictlyIncreasing([m] + rest)
  {
    forall i | 0 <= i < |rest| ensures m < rest[i] {
      assert rest[i] in rest;
      assert rest[i] in s - {m};
    }
    assert s == {m} + (s - {m});
  }

  /** The elements of a set in increasing order (the sorted vector of the chosen positions). */
  function Ascending(s: set<int>): (q: seq<int>)
    ensures |q| == |s| && SameElements(q, s) && StrictlyIncreasing(q)
  {
    if s == {} then []
    else
      var m := Least(s);
      PrependLeast(m, Ascending(s - {m}), s);
      [m] + Ascending(s - {m})
  }

  /** The generator state before the i-th draw. */
  ghost function StateBefore(seed: u64, lo: nat, i: nat): u64
    requires lo + i < TWO64
  {
    if i == 0 then seed else StateAfterDraw(StateBefore(seed, lo, i - 1), lo + i)
  }

  /** The first `k` draws made from `seed`. */
  ghost function DrawsFrom(seed: u64, lo: nat, k: nat): (ts: seq<int>)
    requires lo + k < TWO64
    ensures |ts| == k && IsDrawVector(lo, ts)
  {
    if k == 0 then []
    else DrawsFrom(seed, lo, k - 1) + [Draw(StateBefore(seed, lo, k - 1), lo + k)]
  }

  /** The rows drawn from 0..n for a seed, when k <= n. */
  ghost function Sample(n: u64, k: nat, seed: u64): seq<int>
    requires k <= n
  {
    Ascending(Chosen(n - k, DrawsFrom(seed, n - k, k)))
  }

  lemma SortedBelow(s: set<int>, n: nat)
    requires s <= Range(0, n)
    ensures AllBelow(Ascending(s), n)
  {
    hide Ascending, StrictlyIncreasing;
    forall i | 0 <= i < |Ascending(s)| ensures 0 <= Ascending(s)[i] < n {
      assert Ascending(s)[i] in Ascending(s);
    }
  }

  lemma ChosenIsValid(lo: nat, ts: seq<int>)
    requires IsDrawVector(lo, ts)
    ensures |Ascending(Chosen(lo, ts))| == |ts|
    ensures AllBelow(Ascending(Chosen(lo, ts)), lo + |ts|) && StrictlyIncreasing(Ascending(Chosen(lo, ts)))
  {
    ChosenSize(lo, ts);
    hide Chosen, Ascending, StrictlyIncreasing, SameElements, AllBelow;
    SortedBelow(Chosen(lo, ts), lo + |ts|);
  }

  lemma SampleIsValid(n: u64, k: nat, seed: u64)
    requires k <= n
    ensures |Sample(n, k, seed)| == k
    ensures AllBelow(Sample(n, k, seed), n) && StrictlyIncreasing(Sample(n, k, seed))
  {
    hide DrawsFrom, Chosen, Ascending, Pick, Draw, StrictlyIncreasing, SameElements, AllBelow, IsDrawVector;
    var lo, ts := n - k, DrawsFrom(seed, n - k, k);
    assert Sample(n, k, seed) == Ascending(Chosen(lo, ts));
    hide *;
    ChosenIsValid(lo, ts);
  }

  lemma NothingChosen(seed: u64, lo: u64)
    ensures StateBefore(seed, lo, 0) == seed && Chosen(lo, DrawsFrom(seed, lo, 0)) == {}
  {
  }

  lemma ChosenStep(seed: u64, lo: nat, i: nat)
    requires lo + i + 1 < TWO64
    ensures StateBefore(seed, lo, i + 1) == StateAfterDraw(StateBefore(seed, lo, i), lo + i + 1)
    ensures Chosen(lo, DrawsFrom(seed, lo, i + 1))
         == Pick(Chosen(lo, DrawsFrom(seed, lo, i)), Draw(StateBefore(seed, lo, i), lo + i + 1), lo + i)
  {
    hide Draw, StateAfterDraw, Pick;
    var ts, t := DrawsFrom(seed, lo, i), Draw(StateBefore(seed, lo, i), lo + i + 1);
    assert DrawsFrom(seed, lo, i + 1) == ts + [t];
    hide StateBefore, DrawsFrom;
    ChosenExtend(lo, ts, t);
  }

  method ChooseRows(n: u64, k: u64, seed: u64) returns (chosen: set<int>)
    requires k <= n
    ensures chosen == Chosen(n - k, DrawsFrom(seed, n - k, k))
  {
    hide Draw, StateAfterDraw, StateBefore, DrawsFrom, Chosen;
    var lo := n - k;
    NothingChosen(seed, lo);
    var rng := new SplitMix64(seed);
    chosen := {};
    var j := lo;
    while j < n
      invariant lo <= j <= n
      invariant rng.state == StateBefore(seed, lo, j - lo)
      invariant chosen == Chosen(lo, DrawsFrom(seed, lo, j - lo))
    {
      var t := rng.Below(j + 1);
      ChosenStep(seed, lo, j - lo);
      if t in chosen {
        chosen := chosen + {j};
      } else {
        chosen := chosen + {t};
      }
      j := j + 1;
    }
  }

  // ---------- The sample in words of the generator ----------

  /** Call number `c` is the first one after call number `from` whose word is accepted. */
  ghost predicate NextAccepted(seed: u64, bound: u64, from: nat, c: nat)
    requires bound > 0
  {
    && from < c
    && Accepted(Output(seed, c), bound)
    && forall j: nat :: from < j < c ==> !Accepted(Output(seed, j), bound)
  }

  /** The number of the call before the i-th of the calls `cs`. */
  ghost function CallBefore(cs: seq<nat>, i: nat): nat
    requires i <= |cs|
  {
    if i == 0 then 0 else cs[i - 1]
  }

  /** The calls that give the draws: the i-th is the next one accepted for the bound of position lo + i. */
  ghost predicate AreDrawCalls(seed: u64, lo: nat, cs: seq<nat>)
    requires lo + |cs| < TWO64
  {
    forall i :: 0 <= i < |cs| ==> NextAccepted(seed, lo + i + 1, CallBefore(cs, i), cs[i])
  }

  /** The upper half of each of these words times its bound. */
  ghost function HighsAt(seed: u64, lo: nat, cs: seq<nat>): seq<int>
    requires lo + |cs| < TWO64
  {
    seq(|cs|, i requires 0 <= i < |cs| => High(Output(seed, cs[i]), lo + i + 1))
  }

  /** The elements of `out` are those chosen by the words of the first accepted calls. */
  ghost predicate IsSampleOf(n: u64, k: nat, seed: u64, out: seq<int>)
    requires k <= n
  {
    exists cs: seq<nat> :: |cs| == k && AreDrawCalls(seed, n - k, cs)
      && SameElements(out, Chosen(n - k, HighsAt(seed, n - k, cs)))
  }

  lemma NextUnique(seed: u64, bound: u64, from: nat, c: nat, d: nat)
    requires bound > 0 && NextAccepted(seed, bound, from, c) && NextAccepted(seed, bound, from, d)
    ensures c == d
  {
    hide Accepted, Output;
    assert !(from < c < d) && !(from < d < c);
  }

  /** The calls are determined by the seed. */
  lemma {:induction false} DrawCallsUnique(seed: u64, lo: nat, cs: seq<nat>, ds: seq<nat>, i: nat)
    requires lo + |cs| < TWO64 && |cs| == |ds| && i < |cs|
    requires AreDrawCalls(seed, lo, cs) && AreDrawCalls(seed, lo, ds)
    ensures cs[i] == ds[i]
  {
    hide NextAccepted;
    if i == 0 {
    } else {
      DrawCallsUnique(seed, lo, cs, ds, i - 1);
    }
    assert CallBefore(cs, i) == CallBefore(ds, i);
    NextUnique(seed, lo + i + 1, CallBefore(cs, i), cs[i], ds[i]);
  }

  /** Continuing from the state after `from` calls. */
  lemma DrawFollows(seed: u64, from: nat, bound: u64) returns (c: nat)
    requires bound > 0
    ensures NextAccepted(seed, bound, from, c)
    ensures Draw(StateAfter(seed, from), bound) == High(Output(seed, c), bound)
    ensures StateAfterDraw(StateAfter(seed, from), bound) == StateAfter(seed, c)
  {
    hide Accepted, High, Scramble;
    var calls := Calls(StateAfter(seed, from), bound);
    c := from + calls;
    StateAfterAdd(seed, from, calls);
    forall j: nat | from < j < c ensures !Accepted(Output(seed, j), bound) {
      StateAfterAdd(seed, from, j - from);
      assert !Accepted(Output(StateAfter(seed, from), j - from), bound);
    }
  }

  lemma DrawCallsExtend(seed: u64, lo: nat, cs: seq<nat>, c: nat)
    requires lo + |cs| + 1 < TWO64 && AreDrawCalls(seed, lo, cs)
    requires NextAccepted(seed, lo + |cs| + 1, CallBefore(cs, |cs|), c)
    ensures AreDrawCalls(seed, lo, cs + [c])
    ensures HighsAt(seed, lo, cs + [c]) == HighsAt(seed, lo, cs) + [High(Output(seed, c), lo + |cs| + 1)]
  {
    hide NextAccepted, High, Output;
    forall i | 0 <= i < |cs + [c]|
      ensures NextAccepted(seed, lo + i + 1, CallBefore(cs + [c], i), (cs + [c])[i])
    {
      if i < |cs| {
        assert CallBefore(cs + [c], i) == CallBefore(cs, i);
      }
    }
  }

  /** The draws and states of the reference are those of the first accepted calls. */
  lemma {:induction false} DrawsAreHighs(seed: u64, lo: nat, k: nat) returns (cs: seq<nat>)
    requires lo + k < TWO64
    ensures |cs| == k && AreDrawCalls(seed, lo, cs)
    ensures DrawsFrom(seed, lo, k) == HighsAt(seed, lo, cs)
    ensures StateBefore(seed, lo, k) == StateAfter(seed, CallBefore(cs, k))
  {
    hide Draw, High, Output, StateAfterDraw, NextAccepted;
    if k == 0 {
      cs := [];
    } else {
      var before := DrawsAreHighs(seed, lo, k - 1);
      var c := DrawFollows(seed, CallBefore(before, k - 1), lo + k);
      DrawCallsExtend(seed, lo, before, c);
      cs := before + [c];
    }
  }

  lemma SampleIsSample(n: u64, k: nat, seed: u64)
    requires k <= n
    ensures IsSampleOf(n, k, seed, Sample(n, k, seed))
  {
    hide AreDrawCalls, DrawsFrom, HighsAt, Chosen, Ascending, SameElements;
    var cs := DrawsAreHighs(seed, n - k, k);
    assert SameElements(Sample(n, k, seed), Chosen(n - k, HighsAt(seed, n - k, cs)));
  }

  /** The rows drawn for a seed: always min(k, n) different positions below n, in increasing
      order; they are those that the words of the first accepted calls choose. */
  method SampleRowIndices(n: u64, k: u64, seed: u64) returns (out: seq<int>)
    ensures out == Sample(n, Min(k, n), seed)
    ensures |out| == Min(k, n) && AllBelow(out, n) && StrictlyIncreasing(out)
    ensures IsSampleOf(n, Min(k, n), seed, out)
  {
    hide DrawsFrom, Chosen, Ascending, StrictlyIncreasing, SameElements, AllBelow, IsSampleOf;
    var k' := if k <= n then k else n;
    SampleIsValid(n, k', seed);
    SampleIsSample(n, k', seed);
    var chosen := ChooseRows(n, k', seed);
    out := Ascending(chosen);
  }

  // ---------- One sampled row, over all seeds ----------

  /** The seeds whose first call is accepted and for which the one sampled row is row `r`. */
  ghost function SeedsSampling(n: u64, r: u64): set<int>
    requires n > 0
  {
    set s: int | s in Range(0, TWO64) && Accepted(Output(s, 1), n) && Sample(n, 1, s) == [r]
  }

  lemma OneChosen(lo: nat, t: int)
    ensures Chosen(lo, [t]) == {t}
  {
    assert [t][..0] == [];
  }

  lemma OneAscending(t: int)
    ensures Ascending({t}) == [t]
  {
    var q := Ascending({t});
    assert q[0] in q;
  }

  lemma NoDrawYet(seed: u64, lo: u64)
    ensures DrawsFrom(seed, lo, 0) == [] && StateBefore(seed, lo, 0) == seed
  {
  }

  lemma OneDraw(n: u64, s: u64)
    requires n > 0
    ensures DrawsFrom(s, n - 1, 1) == [Draw(s, n)]
  {
    assert DrawsFrom(s, n - 1, 1) == DrawsFrom(s, n - 1, 0) + [Draw(StateBefore(s, n - 1, 0), n)] by {
      hide Draw, StateAfterDraw, StateBefore;
    }
    hide DrawsFrom, StateBefore, Draw;
    NoDrawYet(s, n - 1);
  }

  lemma OneRowSampled(n: u64, s: u64)
    requires n > 0
    ensures Sample(n, 1, s) == [Draw(s, n)]
  {
    hide Draw, DrawsFrom, Chosen, Ascending;
    OneDraw(n, s);
    OneChosen(n - 1, Draw(s, n));
    OneAscending(Draw(s, n));
  }

  /** Sampling one of n rows is uniform over the seeds: each row is sampled for exactly floor(2^64 / n)
      of the seeds whose first call is accepted. */
  lemma OneRowUniform(n: u64, r: u64)
    requires r < n
    ensures |SeedsSampling(n, r)| == TWO64 / n
  {
    hide Sample, Draw, Calls, Accepted, Output;
    forall s ensures s in SeedsSampling(n, r) <==> s in SeedsFor(n, r) {
      if s in Range(0, TWO64) {
        FirstCallDraw(s, n);
        OneRowSampled(n, s);
      }
    }
    assert SeedsSampling(n, r) == SeedsFor(n, r);
    UnbiasedOverSeeds(n, r);
  }
}
