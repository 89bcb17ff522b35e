/** The palette reconciliation of `replacePrimaryColors`: the primary ramp
    is re-keyed by name, and the colours the probe compile computed are
    merged back into the literal → name table. The compile itself is not
    modelled: its pattern matches are an input. */
module Palette {
  import opened Wrappers
  import opened Strings
  import opened Assoc
  import opened ColorMappings

  /** A shade of the primary ramp (`@primary-1` ... `@primary-10`), as
      opposed to `@primary-color` itself. */
  predicate IsRampName(n: string) {
    n != "@primary-color" && Contains(n, "@primary-")
  }

  /** Re-keying of one ramp entry: its colour loses its owner in `cTn`, and
      the ramp name becomes a key of `cTn` mapping to the colour. */
  function ReKeyStep(cTn: Table, entry: (string, string)): Table {
    if IsRampName(entry.0) then Put(Remove(cTn, entry.1), entry.0, entry.1) else cTn
  }

  /** The loop over `Object.keys(nTc)`, re-keying every ramp entry. */
  function ReKey(cTn: Table, nTc: Table): (r: Table)
    ensures DistinctKeys(cTn) ==> DistinctKeys(r)
    decreases |nTc|
  {
    if |nTc| == 0 then cTn else ReKeyStep(ReKey(cTn, nTc[..|nTc| - 1]), nTc[|nTc| - 1])
  }

  /** No ramp colour is itself the name of a ramp entry. */
  ghost predicate RampSeparate(nTc: Table) {
    forall i, j :: 0 <= i < |nTc| && 0 <= j < |nTc| && IsRampName(nTc[i].0) && IsRampName(nTc[j].0)
      ==> nTc[i].1 != nTc[j].0
  }

  /** `k` is neither a ramp name of `nTc` nor the colour of one. */
  predicate RampAvoids(nTc: Table, k: string)
    decreases |nTc|
  {
    || |nTc| == 0
    || (&& RampAvoids(nTc[..|nTc| - 1], k)
        && !(IsRampName(nTc[|nTc| - 1].0) && (nTc[|nTc| - 1].0 == k || nTc[|nTc| - 1].1 == k)))
  }

  /** Without ramp entries the re-keying leaves `cTn` as it is. */
  lemma {:induction false} ReKeyWithoutRamp(cTn: Table, nTc: Table)
    requires forall i :: 0 <= i < |nTc| ==> !IsRampName(nTc[i].0)
    ensures ReKey(cTn, nTc) == cTn
    decreases |nTc|
  {
    if |nTc| > 0 {
      ReKeyWithoutRamp(cTn, nTc[..|nTc| - 1]);
    }
  }

  /** After re-keying, every ramp name maps to its colour in `cTn`, no ramp
      colour is a key of `cTn` any more, and every other key is as before. */
  lemma {:induction false} ReKeyMovesRamp(cTn: Table, nTc: Table)
    requires DistinctKeys(nTc) && RampSeparate(nTc)
    ensures forall i :: 0 <= i < |nTc| && IsRampName(nTc[i].0) ==> Get(ReKey(cTn, nTc), nTc[i].0) == Some(nTc[i].1)
    ensures forall i :: 0 <= i < |nTc| && IsRampName(nTc[i].0) ==> !HasKey(ReKey(cTn, nTc), nTc[i].1)
    ensures forall k :: RampAvoids(nTc, k) ==> Get(ReKey(cTn, nTc), k) == Get(cTn, k)
  {
    ReKeyRampNames(cTn, nTc);
    ReKeyRampColors(cTn, nTc);
    ReKeyOthers(cTn, nTc);
  }

  lemma {:induction false} ReKeyRampNames(cTn: Table, nTc: Table)
    requires DistinctKeys(nTc) && RampSeparate(nTc)
    ensures forall i :: 0 <= i < |nTc| && IsRampName(nTc[i].0) ==> Get(ReKey(cTn, nTc), nTc[i].0) == Some(nTc[i].1)
    decreases |nTc|
  {
    if |nTc| > 0 {
      var m := |nTc| - 1;
      var init := nTc[..m];
      assert forall i :: 0 <= i < m ==> init[i] == nTc[i];
      ReKeyRampNames(cTn, init);
      var prev := ReKey(cTn, init);
      forall i | 0 <= i < m && IsRampName(nTc[i].0)
        ensures Get(ReKeyStep(prev, nTc[m]), nTc[i].0) == Some(nTc[i].1)
      {
        assert Get(prev, nTc[i].0) == Some(nTc[i].1);
        assert nTc[i].0 != nTc[m].0;
        if IsRampName(nTc[m].0) {
          assert nTc[m].1 != nTc[i].0;
        }
      }
    }
  }

  lemma {:induction false} ReKeyRampColors(cTn: Table, nTc: Table)
    requires DistinctKeys(nTc) && RampSeparate(nTc)
    ensures forall i :: 0 <= i < |nTc| && IsRampName(nTc[i].0) ==> !HasKey(ReKey(cTn, nTc), nTc[i].1)
    decreases |nTc|
  {
    if |nTc| > 0 {
      var m := |nTc| - 1;
      var init := nTc[..m];
      assert forall i :: 0 <= i < m ==> init[i] == nTc[i];
      ReKeyRampColors(cTn, init);
      var prev := ReKey(cTn, init);
      var r := ReKeyStep(prev, nTc[m]);
      forall i | 0 <= i <= m && IsRampName(nTc[i].0)
        ensures !HasKey(r, nTc[i].1)
      {
        if IsRampName(nTc[m].0) {
          assert nTc[i].1 != nTc[m].0;
          assert Get(r, nTc[i].1) == Get(Remove(prev, nTc[m].1), nTc[i].1);
        }
      }
    }
  }

  lemma {:induction false} ReKeyOthers(cTn: Table, nTc: Table)
    ensures forall k :: RampAvoids(nTc, k) ==> Get(ReKey(cTn, nTc), k) == Get(cTn, k)
    decreases |nTc|
  {
    if |nTc| > 0 {
      var m := |nTc| - 1;
      var init := nTc[..m];
      ReKeyOthers(cTn, init);
      forall k | RampAvoids(nTc, k)
        ensures Get(ReKey(cTn, nTc), k) == Get(cTn, k)
      {
      }
    }
  }

  /** What the probe extraction keeps: hexadecimal and `rgba` colours. */
  predicate IsColorLiteral(v: string) {
    StartsWith(v, "rgba") || StartsWith(v, "#")
  }

  /** `getMatches`: every pattern match (class, colour) of the compiled probe
      whose colour is a literal is stored under `'@' + class`. */
  function GetMatches(ms: seq<(string, string)>): (r: Table)
    ensures DistinctKeys(r)
    ensures forall i :: 0 <= i < |r| ==> StartsWith(r[i].0, "@") && IsColorLiteral(r[i].1)
    decreases |ms|
  {
    if |ms| == 0 then []
    else
      var prev := GetMatches(ms[..|ms| - 1]);
      var (cls, v) := ms[|ms| - 1];
      if IsColorLiteral(v) then Put(prev, "@" + cls, v) else prev
  }

  /** A single literal match is stored under its `@`-name. */
  lemma {:induction false} GetMatchesOne(cls: string, v: string)
    requires IsColorLiteral(v)
    ensures GetMatches([(cls, v)]) == [("@" + cls, v)]
  {
  }

  /** A class's colour is that of its last match with a literal colour;
      matches with other values are ignored. */
  lemma {:induction false} GetMatchesLastWins(ms: seq<(string, string)>, cls: string, v: string)
    ensures Get(GetMatches(ms), "@" + cls) == Some(v) <==> LastLiteral(ms, cls, v)
    decreases |ms|
  {
    if |ms| > 0 {
      var m := |ms| - 1;
      var init := ms[..m];
      var (c, w) := ms[m];
      if IsColorLiteral(w) && c == cls {
        assert GetMatches(ms) == Put(GetMatches(init), "@" + cls, w);
        LastLiteralAtEnd(ms, cls, v);
      } else {
        GetMatchesLastWins(init, cls, v);
        AtPrefixInjective(c, cls);
        assert Get(GetMatches(ms), "@" + cls) == Get(GetMatches(init), "@" + cls);
        LastLiteralSkipEnd(ms, cls, v);
      }
    }
  }

  lemma {:induction false} AtPrefixInjective(a: string, b: string)
    ensures "@" + a == "@" + b ==> a == b
  {
    if "@" + a == "@" + b {
      assert a == ("@" + a)[1..];
    }
  }

  /** A final literal match of `cls` is its last one. */
  lemma {:induction false} LastLiteralAtEnd(ms: seq<(string, string)>, cls: string, v: string)
    requires |ms| > 0 && ms[|ms| - 1].0 == cls && IsColorLiteral(ms[|ms| - 1].1)
    ensures LastLiteral(ms, cls, v) <==> ms[|ms| - 1].1 == v
  {
    if ms[|ms| - 1].1 == v {
      assert LastLiteralMatch(ms, cls, v, |ms| - 1);
    }
    if LastLiteral(ms, cls, v) {
      var i :| LastLiteralMatch(ms, cls, v, i);
      assert i == |ms| - 1;
    }
  }

  /** A final match of another class, or without a literal, changes
      nothing. */
  lemma {:induction false} LastLiteralSkipEnd(ms: seq<(string, string)>, cls: string, v: string)
    requires |ms| > 0 && !(ms[|ms| - 1].0 == cls && IsColorLiteral(ms[|ms| - 1].1))
    ensures LastLiteral(ms, cls, v) <==> LastLiteral(ms[..|ms| - 1], cls, v)
  {
    var init := ms[..|ms| - 1];
    if LastLiteral(ms, cls, v) {
      var i :| LastLiteralMatch(ms, cls, v, i);
      assert LastLiteralMatch(init, cls, v, i);
    }
    if LastLiteral(init, cls, v) {
      var i :| LastLiteralMatch(init, cls, v, i);
      assert LastLiteralMatch(ms, cls, v, i);
    }
  }

  /** Match `i` is (cls, v) with `v` a literal, and no later match of `cls`
      has a literal colour. */
  predicate LastLiteralMatch(ms: seq<(string, string)>, cls: string, v: string, i: int) {
    && 0 <= i < |ms| && ms[i] == (cls, v) && IsColorLiteral(v)
    && forall j :: i < j < |ms| ==> !(ms[j].0 == cls && IsColorLiteral(ms[j].1))
  }

  ghost predicate LastLiteral(ms: seq<(string, string)>, cls: string, v: string) {
    exists i :: LastLiteralMatch(ms, cls, v, i)
  }

  /** The ramp test of the reconciliation, `cls.match('primary-\d\d?')`.
      In a string literal `\d` is just `d`, so the pattern is
      `/primary-dd?/`, which matches exactly when `primary-d` occurs. */
  predicate IsRampClass(cls: string) {
    Contains(cls, "primary-d")
  }

  /** The digit pattern the test looks like is not the one it runs: a ramp
      shade is not taken for a ramp class, and a `primary-d...` name is. */
  lemma {:induction false} RampTestIgnoresDigits()
    ensures !IsRampClass("@primary-5")
    ensures IsRampClass("@primary-dark")
  {
    ShadeIsNoRampClass("@primary-5");
    DarkIsRampClass("@primary-dark");
  }

  lemma {:induction false} ShadeIsNoRampClass(shade: string)
    requires shade == "@primary-5"
    ensures !IsRampClass(shade)
  {
    assert forall k :: 0 <= k < |shade| ==> shade[k] != 'd';
    if IsRampClass(shade) {
      ContainsKeepsChars(shade, "primary-d", 8);
    }
  }

  lemma {:induction false} DarkIsRampClass(cls: string)
    requires cls == "@primary-dark"
    ensures IsRampClass(cls)
  {
    assert StartsWith(cls[1..], "primary-d");
  }

  /** JavaScript's `undefined`, as it reads once used as an object key or
      compared with one (`undefined in variables` asks for the key
      "undefined"). */
  const Undefined: string := "undefined"

  /** One reconciliation step for the pair (cls, colour). A ramp class
      hands its `cTn` value over to the colour and loses its own entry; any
      other class becomes the owner of the colour, overwriting any owner. */
  function ReconcileStep(cTn: Table, entry: (string, string)): Table {
    var (cls, color) := entry;
    if IsRampClass(cls) then
      var owner := Get(cTn, cls).GetOr(Undefined);
      Put(Remove(cTn, cls), color, owner)
    else
      Put(cTn, color, cls)
  }

  /** A lookup after one reconciliation step. */
  lemma {:induction false} ReconcileStepGet(cTn: Table, entry: (string, string), k: string)
    ensures Get(ReconcileStep(cTn, entry), k)
         == if k == entry.1 then Some(Owner(cTn, entry.0))
            else if IsRampClass(entry.0) && k == entry.0 then None
            else Get(cTn, k)
  {
  }

  /** The loop over the extracted classes, in order. */
  function Reconcile(cTn: Table, vars: Table): (r: Table)
    ensures DistinctKeys(cTn) ==> DistinctKeys(r)
    decreases |vars|
  {
    if |vars| == 0 then cTn else ReconcileStep(Reconcile(cTn, vars[..|vars| - 1]), vars[|vars| - 1])
  }

  /** A single match of a class outside the ramp makes the class the
      owner of its colour. */
  lemma {:induction false} ReconcileOne(cTn: Table, cls: string, color: string)
    requires !IsRampClass(cls)
    ensures Reconcile(cTn, [(cls, color)]) == Put(cTn, color, cls)
  {
  }

  /** The owner the reconciliation gives a colour extracted for `cls`. */
  function Owner(cTn: Table, cls: string): string {
    if IsRampClass(cls) then Get(cTn, cls).GetOr(Undefined) else cls
  }

  /** What `getMatches` returns: distinct `@`-keys and literal colours. */
  predicate WellFormedMatches(vars: Table) {
    && DistinctKeys(vars)
    && forall i :: 0 <= i < |vars| ==> StartsWith(vars[i].0, "@") && IsColorLiteral(vars[i].1)
  }

  /** Pair `j` is the last pair with its colour. */
  predicate LastWithColor(vars: Table, j: int) {
    0 <= j < |vars| && forall l :: j < l < |vars| ==> vars[l].1 != vars[j].1
  }

  /** `k` is neither a ramp class of `vars` nor one of its colours. */
  predicate ReconcileAvoids(vars: Table, k: string)
    decreases |vars|
  {
    || |vars| == 0
    || (&& ReconcileAvoids(vars[..|vars| - 1], k)
        && vars[|vars| - 1].1 != k
        && !(IsRampClass(vars[|vars| - 1].0) && vars[|vars| - 1].0 == k))
  }

  /** After reconciliation each extracted colour is owned as its last pair
      decides (the class itself, or for a ramp class the value the class had
      in `cTn`), no ramp class is a key any more, and nothing else changed. */
  lemma {:induction false} ReconcileEffect(cTn: Table, vars: Table)
    requires WellFormedMatches(vars)
    ensures forall j :: LastWithColor(vars, j) ==> Get(Reconcile(cTn, vars), vars[j].1) == Some(Owner(cTn, vars[j].0))
    ensures forall j :: 0 <= j < |vars| && IsRampClass(vars[j].0) ==> !HasKey(Reconcile(cTn, vars), vars[j].0)
    ensures forall k :: ReconcileAvoids(vars, k) ==> Get(Reconcile(cTn, vars), k) == Get(cTn, k)
  {
    ReconcileOwners(cTn, vars);
    ReconcileDropsRampClasses(cTn, vars);
    ReconcileOthers(cTn, vars);
  }

  /** Keys and colours of well-formed matches never coincide. */
  lemma {:induction false} KeyIsNoColor(vars: Table, i: int, j: int)
    requires WellFormedMatches(vars) && 0 <= i < |vars| && 0 <= j < |vars|
    ensures vars[i].0 != vars[j].1
  {
    assert vars[i].0[0] == '@';
    assert vars[j].1[0] == '#' || vars[j].1[0] == 'r';
  }

  /** The class of pair `m` is touched by none of the pairs before it. */
  lemma {:induction false} AvoidsOwnClass(vars: Table, m: int)
    requires WellFormedMatches(vars) && 0 <= m < |vars|
    ensures ReconcileAvoids(vars[..m], vars[m].0)
  {
    forall i | 0 <= i < m
      ensures vars[..m][i].1 != vars[m].0 && vars[..m][i].0 != vars[m].0
    {
      KeyIsNoColor(vars, m, i);
    }
    AvoidsEach(vars[..m], vars[m].0);
  }

  lemma {:induction false} AvoidsEach(vars: Table, k: string)
    requires forall i :: 0 <= i < |vars| ==> vars[i].1 != k && vars[i].0 != k
    ensures ReconcileAvoids(vars, k)
    decreases |vars|
  {
    if |vars| > 0 {
      AvoidsEach(vars[..|vars| - 1], k);
    }
  }

  lemma {:induction false} ReconcileOthers(cTn: Table, vars: Table)
    ensures forall k :: ReconcileAvoids(vars, k) ==> Get(Reconcile(cTn, vars), k) == Get(cTn, k)
    decreases |vars|
  {
    if |vars| > 0 {
      var m := |vars| - 1;
      var init := vars[..m];
      ReconcileOthers(cTn, init);
      var prev := Reconcile(cTn, init);
      assert Reconcile(cTn, vars) == ReconcileStep(prev, vars[m]);
      forall k | ReconcileAvoids(vars, k)
        ensures Get(ReconcileStep(prev, vars[m]), k) == Get(cTn, k)
      {
        assert ReconcileAvoids(init, k);
        ReconcileStepGet(prev, vars[m], k);
      }
    }
  }

  lemma {:induction false} ReconcileDropsRampClasses(cTn: Table, vars: Table)
    requires WellFormedMatches(vars)
    ensures forall j :: 0 <= j < |vars| && IsRampClass(vars[j].0) ==> !HasKey(Reconcile(cTn, vars), vars[j].0)
    decreases |vars|
  {
    if |vars| > 0 {
      var m := |vars| - 1;
      var init := vars[..m];
      assert WellFormedMatches(init);
      ReconcileDropsRampClasses(cTn, init);
      forall j | 0 <= j <= m && IsRampClass(vars[j].0)
        ensures !HasKey(Reconcile(cTn, vars), vars[j].0)
      {
        if j < m {
          assert init[j] == vars[j];
        }
        ReconcileDropsAt(cTn, vars, j);
      }
    }
  }

  /** The last reconciliation step, seen from the ramp class of pair `j`. */
  lemma {:induction false} ReconcileDropsAt(cTn: Table, vars: Table, j: int)
    requires WellFormedMatches(vars) && 0 <= j < |vars| && IsRampClass(vars[j].0)
    requires j < |vars| - 1 ==> !HasKey(Reconcile(cTn, vars[..|vars| - 1]), vars[j].0)
    ensures !HasKey(Reconcile(cTn, vars), vars[j].0)
  {
    var m := |vars| - 1;
    var prev := Reconcile(cTn, vars[..m]);
    assert Reconcile(cTn, vars) == ReconcileStep(prev, vars[m]);
    KeyIsNoColor(vars, j, m);
    ReconcileStepGet(prev, vars[m], vars[j].0);
  }

  lemma {:induction false} ReconcileOwners(cTn: Table, vars: Table)
    requires WellFormedMatches(vars)
    ensures forall j :: LastWithColor(vars, j) ==> Get(Reconcile(cTn, vars), vars[j].1) == Some(Owner(cTn, vars[j].0))
    decreases |vars|
  {
    if |vars| > 0 {
      var init := vars[..|vars| - 1];
      assert WellFormedMatches(init);
      ReconcileOwners(cTn, init);
      forall j | LastWithColor(vars, j)
        ensures Get(Reconcile(cTn, vars), vars[j].1) == Some(Owner(cTn, vars[j].0))
      {
        if j < |vars| - 1 {
          assert LastWithColor(init, j) && init[j] == vars[j];
        }
        ReconcileOwnerAt(cTn, vars, j);
      }
    }
  }

  /** The reconciliation step for the last pair, seen from pair `j`. */
  lemma {:induction false} ReconcileOwnerAt(cTn: Table, vars: Table, j: int)
    requires WellFormedMatches(vars) && LastWithColor(vars, j)
    requires j < |vars| - 1 ==> Get(Reconcile(cTn, vars[..|vars| - 1]), vars[j].1) == Some(Owner(cTn, vars[j].0))
    ensures Get(Reconcile(cTn, vars), vars[j].1) == Some(Owner(cTn, vars[j].0))
  {
    var m := |vars| - 1;
    var prev := Reconcile(cTn, vars[..m]);
    assert Reconcile(cTn, vars) == ReconcileStep(prev, vars[m]);
    if j == m {
      ReconcileStepGet(prev, vars[m], vars[j].1);
      LastClassUntouched(cTn, vars);
    } else {
      assert vars[m].1 != vars[j].1;
      KeyIsNoColor(vars, m, j);
      ReconcileStepGet(prev, vars[m], vars[j].1);
    }
  }

  /** Before the last pair is reconciled, its class still has its original
      entry in `cTn`. */
  lemma {:induction false} LastClassUntouched(cTn: Table, vars: Table)
    requires WellFormedMatches(vars) && |vars| > 0
    ensures Get(Reconcile(cTn, vars[..|vars| - 1]), vars[|vars| - 1].0) == Get(cTn, vars[|vars| - 1].0)
  {
    var m := |vars| - 1;
    ReconcileOthers(cTn, vars[..m]);
    AvoidsOwnClass(vars, m);
  }

  /** `replacePrimaryColors` after the probe compile: the ramp is re-keyed,
      then the extracted colours are reconciled into `cTn`; `nTc` is kept.
      No class the ramp test accepts is left as a key of `cTn`. */
  function ReplacePrimaryColors(g: ColorGraph, probe: seq<(string, string)>): (r: ColorGraph)
    ensures r.nTc == g.nTc
    ensures DistinctKeys(g.cTn) ==> DistinctKeys(r.cTn)
    ensures forall i :: 0 <= i < |GetMatches(probe)| && IsRampClass(GetMatches(probe)[i].0)
              ==> !HasKey(r.cTn, GetMatches(probe)[i].0)
  {
    var vars := GetMatches(probe);
    ReconcileEffect(ReKey(g.cTn, g.nTc), vars);
    ColorGraph(Reconcile(ReKey(g.cTn, g.nTc), vars), g.nTc)
  }
}
