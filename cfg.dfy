/**
 * The `#[cfg]` predicate algebra of src/cfg.rs: configuration trees, their evaluation on an
 * assignment of free variables, the brute-force decision of subset / intersects / equivalent,
 * union, simplification, the `{:?}` rendering, and the translation from attribute syntax.
 */
module Cfg {
  import opened Basics
  import opened Reports

  /** A `#[cfg]` attribute as a boolean expression tree. `True` and `False` are for internal use. */
  datatype Config =
    | Not(inner: Config)
    | All(items: seq<Config>)
    | Any(items: seq<Config>)
    | TargetProperty(key: string, value: string)
    | Feature(name: string)
    | Flag(name: string)
    | True
    | False

  /** The variable an atom stands for. */
  datatype FreeVar =
    | TargetVar(key: string, value: string)
    | FeatureVar(name: string)
    | FlagVar(name: string)

  /** `evaluate`: an atom holds iff its variable is in `vars`. */
  function Evaluate(c: Config, vars: set<FreeVar>): bool
  {
    match c
    case Not(inner) => !Evaluate(inner, vars)
    case All(items) => forall i | 0 <= i < |items| :: Evaluate(items[i], vars)
    case Any(items) => exists i | 0 <= i < |items| :: Evaluate(items[i], vars)
    case TargetProperty(key, value) => TargetVar(key, value) in vars
    case Feature(name) => FeatureVar(name) in vars
    case Flag(name) => FlagVar(name) in vars
    case True => true
    case False => false
  }

  /** `is_universal`: only the literal `True` counts. */
  predicate IsUniversal(c: Config)
  {
    c == True
  }

  /** The variables of all atoms in `c`. */
  ghost function FreeVars(c: Config): set<FreeVar>
    decreases c, 1
  {
    match c
    case Not(inner) => FreeVars(inner)
    case All(items) => ItemVars(c, |items|)
    case Any(items) => ItemVars(c, |items|)
    case TargetProperty(key, value) => {TargetVar(key, value)}
    case Feature(name) => {FeatureVar(name)}
    case Flag(name) => {FlagVar(name)}
    case True => {}
    case False => {}
  }

  /** The variables of the first `n` items of an `All` or `Any`. */
  ghost function ItemVars(c: Config, n: nat): set<FreeVar>
    requires c.All? || c.Any?
    requires n <= |c.items|
    decreases c, 0, n
  {
    if n == 0 then {} else ItemVars(c, n - 1) + FreeVars(c.items[n - 1])
  }

  lemma {:induction false} ItemVarsContain(c: Config, n: nat, i: nat)
    requires c.All? || c.Any?
    requires i < n <= |c.items|
    ensures FreeVars(c.items[i]) <= ItemVars(c, n)
    decreases n
  {
    if i < n - 1 {
      ItemVarsContain(c, n - 1, i);
    }
  }

  /** `find_free_vars`: add the variables of `c` to the set `out`. */
  method FindFreeVars(c: Config, out: set<FreeVar>) returns (result: set<FreeVar>)
    ensures result == out + FreeVars(c)
    decreases c
  {
    match c
    case Not(inner) =>
      result := FindFreeVars(inner, out);
    case All(_) | Any(_) =>
      result := out;
      for i := 0 to |c.items|
        invariant result == out + ItemVars(c, i)
      {
        result := FindFreeVars(c.items[i], result);
      }
    case TargetProperty(key, value) =>
      result := out + {TargetVar(key, value)};
    case Feature(name) =>
      result := out + {FeatureVar(name)};
    case Flag(name) =>
      result := out + {FlagVar(name)};
    case True =>
      result := out;
    case False =>
      result := out;
  }

  /** An assignment a target can have: at most one value for each target property key. */
  ghost predicate Consistent(vars: set<FreeVar>)
  {
    forall a, b | a in vars && b in vars && a.TargetVar? && b.TargetVar? && a.key == b.key :: a.value == b.value
  }

  /** `a` entails `b`: wherever `a` applies, so does `b`. */
  ghost predicate Entails(a: Config, b: Config)
  {
    forall vars | Consistent(vars) && Evaluate(a, vars) :: Evaluate(b, vars)
  }

  /** Some target satisfies both. */
  ghost predicate Overlaps(a: Config, b: Config)
  {
    exists vars | Consistent(vars) :: Evaluate(a, vars) && Evaluate(b, vars)
  }

  /** The two agree on every target. */
  ghost predicate Agree(a: Config, b: Config)
  {
    forall vars | Consistent(vars) :: Evaluate(a, vars) == Evaluate(b, vars)
  }

  /** Only the variables of `c` matter to its value. */
  lemma {:induction false} EvaluateLocal(c: Config, vars: set<FreeVar>, scope: set<FreeVar>)
    requires FreeVars(c) <= scope
    ensures Evaluate(c, vars * scope) == Evaluate(c, vars)
    decreases c
  {
    match c
    case Not(inner) =>
      EvaluateLocal(inner, vars, scope);
    case All(items) =>
      forall i | 0 <= i < |items|
        ensures Evaluate(items[i], vars * scope) == Evaluate(items[i], vars)
      {
        ItemVarsContain(c, |items|, i);
        EvaluateLocal(items[i], vars, scope);
      }
    case Any(items) =>
      forall i | 0 <= i < |items|
        ensures Evaluate(items[i], vars * scope) == Evaluate(items[i], vars)
      {
        ItemVarsContain(c, |items|, i);
        EvaluateLocal(items[i], vars, scope);
      }
    case _ =>
  }

  // ---------------------------------------------------------------------------------------
  // union

  /** The alternatives a config contributes to a union: an `Any`'s list, or the config itself. */
  function Alternatives(c: Config): seq<Config>
  {
    if c.Any? then c.items else [c]
  }

  /** An `Any` of two lists holds where either list's `Any` holds. */
  lemma AnyConcat(xs: seq<Config>, ys: seq<Config>)
    ensures forall vars :: Evaluate(Any(xs + ys), vars) == (Evaluate(Any(xs), vars) || Evaluate(Any(ys), vars))
  {
    forall vars
      ensures Evaluate(Any(xs + ys), vars) == (Evaluate(Any(xs), vars) || Evaluate(Any(ys), vars))
    {
      if Evaluate(Any(xs + ys), vars) {
        var i :| 0 <= i < |xs + ys| && Evaluate((xs + ys)[i], vars);
        if i >= |xs| {
          assert ys[i - |xs|] == (xs + ys)[i];
        }
      }
      if Evaluate(Any(xs), vars) {
        var i :| 0 <= i < |xs| && Evaluate(xs[i], vars);
        assert (xs + ys)[i] == xs[i];
      }
      if Evaluate(Any(ys), vars) {
        var i :| 0 <= i < |ys| && Evaluate(ys[i], vars);
        assert (xs + ys)[|xs| + i] == ys[i];
      }
    }
  }

  /** An `Any` of one item means that item. */
  lemma AnySingle(x: Config)
    ensures forall vars :: Evaluate(Any([x]), vars) == Evaluate(x, vars)
  {
    forall vars
      ensures Evaluate(Any([x]), vars) == Evaluate(x, vars)
    {
      assert [x][0] == x;
    }
  }

  /**
   * `union`: the receiver `a` rewritten to accept what `a` or `b` accepts. An `Any` on either
   * side is extended rather than nested; when only `b` is an `Any`, the two are swapped first,
   * so `a` goes at the end of `b`'s list.
   */
  function Union(a: Config, b: Config): (r: Config)
    ensures r.Any?
    ensures forall vars :: Evaluate(r, vars) == (Evaluate(a, vars) || Evaluate(b, vars))
    ensures multiset(r.items) == multiset(Alternatives(a) + Alternatives(b))
    ensures |r.items| == |Alternatives(a)| + |Alternatives(b)|
    ensures a.Any? && b.Any? ==> r.items == a.items + b.items
  {
    AnyConcat(Alternatives(a), Alternatives(b));
    AnyConcat(Alternatives(b), Alternatives(a));
    AnySingle(a);
    AnySingle(b);
    if a.Any? then
      if b.Any? then Any(a.items + b.items) else Any(a.items + [b])
    else if b.Any? then
      Any(b.items + [a])
    else
      assert multiset(Alternatives(a) + Alternatives(b)) == multiset([b, a]);
      Any([b, a])
  }

  /**
   * `union` as it rewrites the receiver: an `Any` receiver takes `other` (or its items) at the end;
   * otherwise the two are swapped, and an `Any` that was `other` takes the old receiver at the end;
   * otherwise the receiver becomes `Any([other, old receiver])`.
   */
  method UnionWith(self: Config, other: Config) returns (result: Config)
    ensures result == Union(self, other)
  {
    if self.Any? {
      if other.Any? {
        return Any(self.items + other.items);
      }
      return Any(self.items + [other]);
    }
    var receiver, displaced := other, self;  // mem::swap
    if receiver.Any? {
      return Any(receiver.items + [displaced]);
    }
    result := Any([receiver, displaced]);
  }

  // ---------------------------------------------------------------------------------------
  // simplify

  /** `Vec::retain(|i| *i != dropped)`: the items other than `dropped`, in their order. */
  function Retain(s: seq<Config>, dropped: Config): (r: seq<Config>)
    ensures forall x | x in r :: x in s && x != dropped
    ensures forall x | x in s && x != dropped :: x in r
    ensures dropped !in s ==> r == s
  {
    if s == [] then [] else (if s[0] == dropped then [] else [s[0]]) + Retain(s[1..], dropped)
  }

  /** `retain` keeps every other item as often as it occurs and removes every copy of `dropped`. */
  lemma {:induction false} RetainCounts(s: seq<Config>, dropped: Config)
    ensures multiset(Retain(s, dropped)) == multiset(s)[dropped := 0]
  {
    if s != [] {
      var head := if s[0] == dropped then [] else [s[0]];
      var rest := Retain(s[1..], dropped);
      RetainCounts(s[1..], dropped);
      assert Retain(s, dropped) == head + rest;
      MultisetCons(s);
      DropFromAdded(s[0], multiset(s[1..]), dropped);
      assert multiset(head) == if s[0] == dropped then multiset{} else multiset{s[0]};
      assert multiset(head + rest) == multiset(head) + multiset(rest);
    }
  }

  /** A non-empty sequence holds its first item and the items of its tail. */
  lemma MultisetCons<T>(s: seq<T>)
    requires s != []
    ensures multiset(s) == multiset{s[0]} + multiset(s[1..])
  {
    assert s == [s[0]] + s[1..];
  }

  /** Removing every copy of `d` after adding `x` is adding `x` only when it is not `d`. */
  lemma DropFromAdded<T>(x: T, m: multiset<T>, d: T)
    ensures (multiset{x} + m)[d := 0] == (if x == d then multiset{} else multiset{x}) + m[d := 0]
  {
    var l := (multiset{x} + m)[d := 0];
    var r := (if x == d then multiset{} else multiset{x}) + m[d := 0];
    forall y
      ensures l[y] == r[y]
    {
    }
    assert l == r;
  }

  /** `retain` works item by item, so it keeps the order: it distributes over concatenation. */
  lemma {:induction false} RetainConcat(s1: seq<Config>, s2: seq<Config>, dropped: Config)
    ensures Retain(s1 + s2, dropped) == Retain(s1, dropped) + Retain(s2, dropped)
  {
    if s1 == [] {
      assert s1 + s2 == s2;
    } else {
      var head := if s1[0] == dropped then [] else [s1[0]];
      assert (s1 + s2)[0] == s1[0] && (s1 + s2)[1..] == s1[1..] + s2;
      assert Retain(s1 + s2, dropped) == head + Retain(s1[1..] + s2, dropped);
      assert Retain(s1, dropped) == head + Retain(s1[1..], dropped);
      RetainConcat(s1[1..], s2, dropped);
      AppendAssoc(head, Retain(s1[1..], dropped), Retain(s2, dropped));
    }
  }

  /** On a single item, `retain` keeps it exactly when it is not `dropped`. */
  lemma RetainSingle(x: Config, dropped: Config)
    ensures Retain([x], dropped) == if x == dropped then [] else [x]
  {
    assert [x][1..] == [];
  }

  /**
   * What `simplify` leaves in the receiver: children first; then `True` is dropped from an `All`
   * and `False` from an `Any`; a list left empty becomes `True` (`All`) or `False` (`Any`), a
   * list left with one item becomes that item; `not` of a constant becomes the other constant.
   */
  function Simplified(c: Config): Config
    decreases c, 1
  {
    match c
    case Not(inner) =>
      var s := Simplified(inner);
      if s == True then False else if s == False then True else Not(s)
    case All(items) =>
      var kept := Retain(SimplifiedItems(c), True);
      if |kept| == 0 then True else if |kept| == 1 then kept[0] else All(kept)
    case Any(items) =>
      var kept := Retain(SimplifiedItems(c), False);
      if |kept| == 0 then False else if |kept| == 1 then kept[0] else Any(kept)
    case _ => c
  }

  /** The items of an `All` or `Any`, each simplified. */
  function SimplifiedItems(c: Config): (m: seq<Config>)
    requires c.All? || c.Any?
    ensures |m| == |c.items|
    decreases c, 0
  {
    seq(|c.items|, i requires 0 <= i < |c.items| => Simplified(c.items[i]))
  }

  /**
   * A simplified tree: no `not` of a constant, no `All` with a `True` item, no `Any` with a
   * `False` item, no `All` or `Any` with fewer than two items, at any depth.
   */
  ghost predicate Normal(c: Config)
  {
    match c
    case Not(inner) => inner != True && inner != False && Normal(inner)
    case All(items) => |items| >= 2 && True !in items && forall i | 0 <= i < |items| :: Normal(items[i])
    case Any(items) => |items| >= 2 && False !in items && forall i | 0 <= i < |items| :: Normal(items[i])
    case _ => true
  }

  /** Dropping items that hold everywhere does not change an `All`. */
  lemma RetainAll(s: seq<Config>, vars: set<FreeVar>)
    ensures Evaluate(All(Retain(s, True)), vars) == Evaluate(All(s), vars)
  {
    var r := Retain(s, True);
    if Evaluate(All(r), vars) {
      forall i | 0 <= i < |s|
        ensures Evaluate(s[i], vars)
      {
        if s[i] != True {
          assert s[i] in s;
          assert s[i] in r;
          var k :| 0 <= k < |r| && r[k] == s[i];
        }
      }
    }
    if Evaluate(All(s), vars) {
      forall k | 0 <= k < |r|
        ensures Evaluate(r[k], vars)
      {
        assert r[k] in r;
        assert r[k] in s;
        var i :| 0 <= i < |s| && s[i] == r[k];
      }
    }
  }

  /** Dropping items that hold nowhere does not change an `Any`. */
  lemma RetainAny(s: seq<Config>, vars: set<FreeVar>)
    ensures Evaluate(Any(Retain(s, False)), vars) == Evaluate(Any(s), vars)
  {
    var r := Retain(s, False);
    if Evaluate(Any(s), vars) {
      var i :| 0 <= i < |s| && Evaluate(s[i], vars);
      assert s[i] in s;
      assert s[i] in r;
      var k :| 0 <= k < |r| && r[k] == s[i];
    }
    if Evaluate(Any(r), vars) {
      var k :| 0 <= k < |r| && Evaluate(r[k], vars);
      assert r[k] in r;
      assert r[k] in s;
      var i :| 0 <= i < |s| && s[i] == r[k];
    }
  }

  /** Simplifying the items of a list keeps the meaning of each item. */
  lemma {:induction false} SimplifiedItemsEvaluate(c: Config, vars: set<FreeVar>)
    requires c.All? || c.Any?
    ensures forall i | 0 <= i < |c.items| :: Evaluate(SimplifiedItems(c)[i], vars) == Evaluate(c.items[i], vars)
    decreases c, 0
  {
    forall i | 0 <= i < |c.items|
      ensures Evaluate(SimplifiedItems(c)[i], vars) == Evaluate(c.items[i], vars)
    {
      SimplifyPreservesEvaluate(c.items[i], vars);
    }
  }

  /** An `All` over items that each mean what the original items mean means the same. */
  lemma AllPointwise(xs: seq<Config>, ys: seq<Config>, vars: set<FreeVar>)
    requires |xs| == |ys| && forall i | 0 <= i < |xs| :: Evaluate(xs[i], vars) == Evaluate(ys[i], vars)
    ensures Evaluate(All(xs), vars) == Evaluate(All(ys), vars)
  {
  }

  /** The `All` step of `simplify` keeps the meaning, given that simplifying each item does. */
  lemma SimplifyAllStep(c: Config, vars: set<FreeVar>)
    requires c.All?
    requires forall i | 0 <= i < |c.items| :: Evaluate(SimplifiedItems(c)[i], vars) == Evaluate(c.items[i], vars)
    ensures Evaluate(Simplified(c), vars) == Evaluate(c, vars)
  {
    var m := SimplifiedItems(c);
    AllPointwise(m, c.items, vars);
    RetainAll(m, vars);
    var kept := Retain(m, True);
    if |kept| == 1 {
      assert Evaluate(All(kept), vars) == Evaluate(kept[0], vars);
    }
  }

  /** An `Any` over items that each mean what the original items mean means the same. */
  lemma AnyPointwise(xs: seq<Config>, ys: seq<Config>, vars: set<FreeVar>)
    requires |xs| == |ys| && forall i | 0 <= i < |xs| :: Evaluate(xs[i], vars) == Evaluate(ys[i], vars)
    ensures Evaluate(Any(xs), vars) == Evaluate(Any(ys), vars)
  {
    if Evaluate(Any(ys), vars) {
      var i :| 0 <= i < |ys| && Evaluate(ys[i], vars);
      assert Evaluate(xs[i], vars);
    }
  }

  /** The `Any` step of `simplify` keeps the meaning, given that simplifying each item does. */
  lemma SimplifyAnyStep(c: Config, vars: set<FreeVar>)
    requires c.Any?
    requires forall i | 0 <= i < |c.items| :: Evaluate(SimplifiedItems(c)[i], vars) == Evaluate(c.items[i], vars)
    ensures Evaluate(Simplified(c), vars) == Evaluate(c, vars)
  {
    var m := SimplifiedItems(c);
    AnyPointwise(m, c.items, vars);
    RetainAny(m, vars);
    var kept := Retain(m, False);
    if |kept| == 1 {
      assert kept == [kept[0]];
      AnySingle(kept[0]);
    }
  }

  /** `simplify` keeps the meaning: the result holds on exactly the assignments the input holds on. */
  lemma {:induction false} SimplifyPreservesEvaluate(c: Config, vars: set<FreeVar>)
    ensures Evaluate(Simplified(c), vars) == Evaluate(c, vars)
    decreases c, 1
  {
    match c
    case Not(inner) =>
      SimplifyPreservesEvaluate(inner, vars);
    case All(items) =>
      SimplifiedItemsEvaluate(c, vars);
      SimplifyAllStep(c, vars);
    case Any(items) =>
      SimplifiedItemsEvaluate(c, vars);
      SimplifyAnyStep(c, vars);
    case _ =>
  }

  /** The result of `simplify` is in normal form. */
  lemma {:induction false} SimplifiedIsNormal(c: Config)
    ensures Normal(Simplified(c))
    decreases c
  {
    match c
    case Not(inner) =>
      SimplifiedIsNormal(inner);
    case All(items) =>
      var m := SimplifiedItems(c);
      forall i | 0 <= i < |items|
        ensures Normal(m[i])
      {
        SimplifiedIsNormal(items[i]);
      }
      var kept := Retain(m, True);
      forall k | 0 <= k < |kept|
        ensures Normal(kept[k])
      {
        assert kept[k] in kept;
        assert kept[k] in m;
        var i :| 0 <= i < |m| && m[i] == kept[k];
      }
    case Any(items) =>
      var m := SimplifiedItems(c);
      forall i | 0 <= i < |items|
        ensures Normal(m[i])
      {
        SimplifiedIsNormal(items[i]);
      }
      var kept := Retain(m, False);
      forall k | 0 <= k < |kept|
        ensures Normal(kept[k])
      {
        assert kept[k] in kept;
        assert kept[k] in m;
        var i :| 0 <= i < |m| && m[i] == kept[k];
      }
    case _ =>
  }

  /** `simplify` changes nothing in a tree already in normal form. */
  lemma {:induction false} NormalIsFixpoint(c: Config)
    requires Normal(c)
    ensures Simplified(c) == c
    decreases c
  {
    match c
    case Not(inner) =>
      NormalIsFixpoint(inner);
    case All(items) =>
      var m := SimplifiedItems(c);
      forall i | 0 <= i < |items|
        ensures m[i] == items[i]
      {
        NormalIsFixpoint(items[i]);
      }
      assert m == items;
    case Any(items) =>
      var m := SimplifiedItems(c);
      forall i | 0 <= i < |items|
        ensures m[i] == items[i]
      {
        NormalIsFixpoint(items[i]);
      }
      assert m == items;
    case _ =>
  }

  /** A second `simplify` changes nothing. */
  lemma SimplifyIdempotent(c: Config)
    ensures Simplified(Simplified(c)) == Simplified(c)
  {
    SimplifiedIsNormal(c);
    NormalIsFixpoint(Simplified(c));
  }

  /**
   * `simplify`, rewriting the receiver: each child of an `All`/`Any` is simplified in place,
   * then the list is filtered and collapsed.
   */
  method Simplify(c: Config) returns (r: Config)
    ensures r == Simplified(c)
    decreases c
  {
    match c {
      case Not(inner) =>
        var s := Simplify(inner);
        if s == True {
          r := False;
        } else if s == False {
          r := True;
        } else {
          r := Not(s);
        }
      case All(items) =>
        var inner := items;
        for i := 0 to |inner|
          invariant |inner| == |items|
          invariant forall j | 0 <= j < i :: inner[j] == Simplified(items[j])
          invariant forall j | i <= j < |inner| :: inner[j] == items[j]
        {
          var each := Simplify(items[i]);
          inner := inner[i := each];
        }
        assert inner == SimplifiedItems(c);
        inner := Retain(inner, True);
        if |inner| == 0 {
          r := True;
        } else if |inner| == 1 {
          r := inner[0];
        } else {
          r := All(inner);
        }
      case Any(items) =>
        var inner := items;
        for i := 0 to |inner|
          invariant |inner| == |items|
          invariant forall j | 0 <= j < i :: inner[j] == Simplified(items[j])
          invariant forall j | i <= j < |inner| :: inner[j] == items[j]
        {
          var each := Simplify(items[i]);
          inner := inner[i := each];
        }
        assert inner == SimplifiedItems(c);
        inner := Retain(inner, False);
        if |inner| == 0 {
          r := False;
        } else if |inner| == 1 {
          r := inner[0];
        } else {
          r := Any(inner);
        }
      case _ =>
        r := c;
    }
  }

  // ---------------------------------------------------------------------------------------
  // the decision procedure: `any`, then `subset`, `intersects`, `equivalent`

  /** The key of a group of target properties, read off its first variable. */
  function KeyOf(g: seq<FreeVar>): (r: Option<string>)
    ensures r.Some? <==> |g| > 0 && g[0].TargetVar?
  {
    if |g| > 0 && g[0].TargetVar? then Some(g[0].key) else None
  }

  /** A feature or flag alone, or target properties that share one key. */
  ghost predicate GroupShape(g: seq<FreeVar>)
  {
    && |g| > 0
    && (KeyOf(g).None? ==> |g| == 1)
    && (KeyOf(g).Some? ==> forall j | 0 <= j < |g| :: g[j].TargetVar? && g[j].key == KeyOf(g).value)
  }

  ghost predicate GroupsWithin(groups: seq<seq<FreeVar>>, vars: set<FreeVar>)
  {
    forall i, j | 0 <= i < |groups| && 0 <= j < |groups[i]| :: groups[i][j] in vars
  }

  ghost predicate GroupsCover(groups: seq<seq<FreeVar>>, vars: set<FreeVar>)
  {
    forall v | v in vars :: exists i, j :: 0 <= i < |groups| && 0 <= j < |groups[i]| && groups[i][j] == v
  }

  ghost predicate DistinctKeys(groups: seq<seq<FreeVar>>)
  {
    forall i1, i2 | 0 <= i1 < |groups| && 0 <= i2 < |groups| && KeyOf(groups[i1]).Some? && KeyOf(groups[i1]) == KeyOf(groups[i2]) ::
      i1 == i2
  }

  /**
   * `groups` lists the variables of `vars` as the choices `any` enumerates: every variable is in
   * some group, a feature or flag is alone in its group, and the target properties sharing a key
   * form one group of their own.
   */
  ghost predicate WellGrouped(groups: seq<seq<FreeVar>>, vars: set<FreeVar>)
  {
    && (forall i | 0 <= i < |groups| :: GroupShape(groups[i]))
    && GroupsWithin(groups, vars)
    && GroupsCover(groups, vars)
    && DistinctKeys(groups)
  }

  /** `options.iter().position(..)`: the first group, from `from` on, of target properties with this key. */
  function Position(groups: seq<seq<FreeVar>>, key: string, from: nat): (r: Option<nat>)
    requires from <= |groups|
    ensures r.Some? ==> from <= r.value < |groups| && KeyOf(groups[r.value]) == Some(key)
    ensures r.Some? ==> forall i | from <= i < r.value :: KeyOf(groups[i]) != Some(key)
    ensures r.None? ==> forall i | from <= i < |groups| :: KeyOf(groups[i]) != Some(key)
    decreases |groups| - from
  {
    if from == |groups| then None
    else if KeyOf(groups[from]) == Some(key) then Some(from)
    else Position(groups, key, from + 1)
  }

  lemma CoverAppend(groups: seq<seq<FreeVar>>, vars: set<FreeVar>, v: FreeVar)
    requires GroupsCover(groups, vars)
    ensures GroupsCover(groups + [[v]], vars + {v})
  {
    var g := groups + [[v]];
    forall u | u in vars + {v}
      ensures exists i, j :: 0 <= i < |g| && 0 <= j < |g[i]| && g[i][j] == u
    {
      if u == v {
        assert g[|groups|][0] == v;
      } else {
        var i, j :| 0 <= i < |groups| && 0 <= j < |groups[i]| && groups[i][j] == u;
        assert g[i][j] == u;
      }
    }
  }

  lemma CoverExtend(groups: seq<seq<FreeVar>>, vars: set<FreeVar>, v: FreeVar, idx: nat)
    requires GroupsCover(groups, vars) && idx < |groups|
    ensures GroupsCover(groups[idx := groups[idx] + [v]], vars + {v})
  {
    var g := groups[idx := groups[idx] + [v]];
    forall u | u in vars + {v}
      ensures exists i, j :: 0 <= i < |g| && 0 <= j < |g[i]| && g[i][j] == u
    {
      if u == v {
        assert g[idx][|groups[idx]|] == v;
      } else {
        var i, j :| 0 <= i < |groups| && 0 <= j < |groups[i]| && groups[i][j] == u;
        assert g[i][j] == u;
      }
    }
  }

  lemma WithinAppend(groups: seq<seq<FreeVar>>, vars: set<FreeVar>, v: FreeVar)
    requires GroupsWithin(groups, vars)
    ensures GroupsWithin(groups + [[v]], vars + {v})
  {
    var g := groups + [[v]];
    forall i, j | 0 <= i < |g| && 0 <= j < |g[i]|
      ensures g[i][j] in vars + {v}
    {
      if i < |groups| {
        assert g[i][j] == groups[i][j];
      }
    }
  }

  lemma WithinExtend(groups: seq<seq<FreeVar>>, vars: set<FreeVar>, v: FreeVar, idx: nat)
    requires GroupsWithin(groups, vars) && idx < |groups|
    ensures GroupsWithin(groups[idx := groups[idx] + [v]], vars + {v})
  {
    var g := groups[idx := groups[idx] + [v]];
    forall i, j | 0 <= i < |g| && 0 <= j < |g[i]|
      ensures g[i][j] in vars + {v}
    {
      if i != idx || j < |groups[idx]| {
        assert g[i][j] == groups[i][j];
      }
    }
  }

  lemma ShapesAppend(groups: seq<seq<FreeVar>>, v: FreeVar)
    requires forall i | 0 <= i < |groups| :: GroupShape(groups[i])
    ensures forall i | 0 <= i < |groups| + 1 :: GroupShape((groups + [[v]])[i])
  {
    var g := groups + [[v]];
    assert GroupShape([v]);
    assert forall i | 0 <= i < |groups| :: g[i] == groups[i];
  }

  lemma DistinctAppend(groups: seq<seq<FreeVar>>, v: FreeVar)
    requires DistinctKeys(groups)
    requires v.TargetVar? ==> forall i | 0 <= i < |groups| :: KeyOf(groups[i]) != Some(v.key)
    ensures DistinctKeys(groups + [[v]])
  {
    var g := groups + [[v]];
    assert forall i | 0 <= i < |groups| :: g[i] == groups[i];
    assert KeyOf(g[|groups|]) == if v.TargetVar? then Some(v.key) else None;
  }

  /** A variable that starts a group of its own keeps the grouping well formed. */
  lemma AddGroup(groups: seq<seq<FreeVar>>, vars: set<FreeVar>, v: FreeVar)
    requires WellGrouped(groups, vars)
    requires v.TargetVar? ==> forall i | 0 <= i < |groups| :: KeyOf(groups[i]) != Some(v.key)
    ensures WellGrouped(groups + [[v]], vars + {v})
  {
    ShapesAppend(groups, v);
    DistinctAppend(groups, v);
    CoverAppend(groups, vars, v);
    WithinAppend(groups, vars, v);
  }

  /** A target property joins the group of its key and keeps the grouping well formed. */
  lemma JoinGroup(groups: seq<seq<FreeVar>>, vars: set<FreeVar>, v: FreeVar, idx: nat)
    requires WellGrouped(groups, vars)
    requires v.TargetVar? && idx < |groups| && KeyOf(groups[idx]) == Some(v.key)
    ensures WellGrouped(groups[idx := groups[idx] + [v]], vars + {v})
  {
    var g := groups[idx := groups[idx] + [v]];
    assert KeyOf(g[idx]) == KeyOf(groups[idx]);
    assert GroupShape(g[idx]) by {
      forall j | 0 <= j < |g[idx]|
        ensures g[idx][j].TargetVar? && g[idx][j].key == v.key
      {
        if j < |groups[idx]| {
          assert g[idx][j] == groups[idx][j];
        }
      }
    }
    assert forall i | 0 <= i < |groups| && i != idx :: g[i] == groups[i];
    CoverExtend(groups, vars, v, idx);
    WithinExtend(groups, vars, v, idx);
  }

  /** Every variable is listed once: in one group, at one place. */
  ghost predicate NoRepeats(groups: seq<seq<FreeVar>>)
  {
    forall i1, j1, i2, j2 |
      0 <= i1 < |groups| && 0 <= j1 < |groups[i1]| && 0 <= i2 < |groups| && 0 <= j2 < |groups[i2]| &&
      groups[i1][j1] == groups[i2][j2] :: i1 == i2 && j1 == j2
  }

  /** A new group holding a variable not yet listed lists nothing twice. */
  lemma RepeatsAppend(groups: seq<seq<FreeVar>>, vars: set<FreeVar>, v: FreeVar)
    requires NoRepeats(groups) && GroupsWithin(groups, vars) && v !in vars
    ensures NoRepeats(groups + [[v]])
  {
    var g := groups + [[v]];
    forall i1, j1, i2, j2 |
      0 <= i1 < |g| && 0 <= j1 < |g[i1]| && 0 <= i2 < |g| && 0 <= j2 < |g[i2]| && g[i1][j1] == g[i2][j2]
      ensures i1 == i2 && j1 == j2
    {
      if i1 < |groups| {
        assert g[i1][j1] == groups[i1][j1] && groups[i1][j1] in vars;
      }
      if i2 < |groups| {
        assert g[i2][j2] == groups[i2][j2] && groups[i2][j2] in vars;
      }
    }
  }

  /** A variable not yet listed, added at the end of one group, lists nothing twice. */
  lemma RepeatsExtend(groups: seq<seq<FreeVar>>, vars: set<FreeVar>, v: FreeVar, idx: nat)
    requires NoRepeats(groups) && GroupsWithin(groups, vars) && v !in vars && idx < |groups|
    ensures NoRepeats(groups[idx := groups[idx] + [v]])
  {
    var g := groups[idx := groups[idx] + [v]];
    forall i1, j1, i2, j2 |
      0 <= i1 < |g| && 0 <= j1 < |g[i1]| && 0 <= i2 < |g| && 0 <= j2 < |g[i2]| && g[i1][j1] == g[i2][j2]
      ensures i1 == i2 && j1 == j2
    {
      if i1 != idx || j1 < |groups[idx]| {
        assert g[i1][j1] == groups[i1][j1] && groups[i1][j1] in vars;
      }
      if i2 != idx || j2 < |groups[idx]| {
        assert g[i2][j2] == groups[i2][j2] && groups[i2][j2] in vars;
      }
    }
  }

  /**
   * The first half of `any`: turn the free variables into the list of choices to iterate. The
   * variables are taken in an unspecified order (the source visits its ordered set in order).
   */
  method Options(freeVars: set<FreeVar>) returns (groups: seq<seq<FreeVar>>)
    ensures WellGrouped(groups, freeVars)
    ensures NoRepeats(groups)
  {
    groups := [];
    var rest := freeVars;
    while rest != {}
      invariant rest <= freeVars
      invariant WellGrouped(groups, freeVars - rest)
      invariant NoRepeats(groups)
      decreases |rest|
    {
      var v :| v in rest;
      var done := freeVars - rest;
      if v.TargetVar? {
        var idx := Position(groups, v.key, 0);
        if idx.Some? {
          JoinGroup(groups, done, v, idx.value);
          RepeatsExtend(groups, done, v, idx.value);
          groups := groups[idx.value := groups[idx.value] + [v]];
        } else {
          AddGroup(groups, done, v);
          RepeatsAppend(groups, done, v);
          groups := groups + [[v]];
        }
      } else {
        AddGroup(groups, done, v);
        RepeatsAppend(groups, done, v);
        groups := groups + [[v]];
      }
      rest := rest - {v};
      assert freeVars - rest == done + {v};
    }
    assert freeVars - rest == freeVars;
  }

  /** A vector of positions, one per group: 0 picks nothing, p > 0 picks the group's p-th variable. */
  ghost predicate InRange(pos: seq<nat>, groups: seq<seq<FreeVar>>)
  {
    |pos| == |groups| && forall i | 0 <= i < |pos| :: pos[i] <= |groups[i]|
  }

  /** The variables the first `n` positions pick. */
  ghost function Chosen(groups: seq<seq<FreeVar>>, pos: seq<nat>, n: nat): set<FreeVar>
    requires InRange(pos, groups) && n <= |pos|
  {
    set i | 0 <= i < n && pos[i] > 0 :: groups[i][pos[i] - 1]
  }

  /** How many position vectors there are: the product of (group size + 1). */
  function Total(groups: seq<seq<FreeVar>>): (n: nat)
    ensures n >= 1
  {
    if groups == [] then 1 else (|groups[0]| + 1) * Total(groups[1..])
  }

  /** A position vector read as a mixed-radix number, position 0 the least significant digit. */
  ghost function Value(pos: seq<nat>, groups: seq<seq<FreeVar>>): nat
    requires |pos| == |groups|
  {
    if pos == [] then 0 else pos[0] + (|groups[0]| + 1) * Value(pos[1..], groups[1..])
  }

  lemma {:induction false} MulLe(m: nat, x: nat, y: nat)
    requires x <= y
    ensures m * x <= m * y
    decreases m
  {
    if m > 0 {
      MulLe(m - 1, x, y);
      assert m * x == (m - 1) * x + x;
      assert m * y == (m - 1) * y + y;
    }
  }

  lemma {:induction false} ValueBelowTotal(pos: seq<nat>, groups: seq<seq<FreeVar>>)
    requires InRange(pos, groups)
    ensures Value(pos, groups) < Total(groups)
    decreases |pos|
  {
    if pos != [] {
      assert InRange(pos[1..], groups[1..]);
      ValueBelowTotal(pos[1..], groups[1..]);
      var m := |groups[0]| + 1;
      var v := Value(pos[1..], groups[1..]);
      var t := Total(groups[1..]);
      MulLe(m, v, t - 1);
      assert m * (t - 1) == m * t - m;
    }
  }

  lemma DigitsUnique(m: nat, a: nat, x: nat, b: nat, y: nat)
    requires a < m && b < m && a + m * x == b + m * y
    ensures a == b && x == y
  {
    if x < y {
      MulLe(m, x + 1, y);
    } else if y < x {
      MulLe(m, y + 1, x);
    }
  }

  /** Distinct position vectors have distinct values. */
  lemma {:induction false} ValueInjective(p: seq<nat>, q: seq<nat>, groups: seq<seq<FreeVar>>)
    requires InRange(p, groups) && InRange(q, groups) && Value(p, groups) == Value(q, groups)
    ensures p == q
    decreases |p|
  {
    if p != [] {
      assert InRange(p[1..], groups[1..]) && InRange(q[1..], groups[1..]);
      DigitsUnique(|groups[0]| + 1, p[0], Value(p[1..], groups[1..]), q[0], Value(q[1..], groups[1..]));
      ValueInjective(p[1..], q[1..], groups[1..]);
      assert p == [p[0]] + p[1..] && q == [q[0]] + q[1..];
    }
  }

  lemma {:induction false} ZeroValue(pos: seq<nat>, groups: seq<seq<FreeVar>>)
    requires |pos| == |groups| && forall i | 0 <= i < |pos| :: pos[i] == 0
    ensures Value(pos, groups) == 0
    decreases |pos|
  {
    if pos != [] {
      ZeroValue(pos[1..], groups[1..]);
    }
  }

  /** The last vector, every position at its group's size, has the largest value. */
  lemma {:induction false} MaxValue(pos: seq<nat>, groups: seq<seq<FreeVar>>)
    requires |pos| == |groups| && forall i | 0 <= i < |pos| :: pos[i] == |groups[i]|
    ensures Value(pos, groups) == Total(groups) - 1
    decreases |pos|
  {
    if pos != [] {
      MaxValue(pos[1..], groups[1..]);
      var m := |groups[0]| + 1;
      var t := Total(groups[1..]);
      assert m * (t - 1) == m * t - m;
    }
  }

  /** One odometer step: the positions below `k` wrapped to 0 from their maximum, position `k` went up. */
  ghost predicate Stepped(before: seq<nat>, after: seq<nat>, groups: seq<seq<FreeVar>>, k: nat)
  {
    && |before| == |after| == |groups| && k < |groups|
    && (forall j | 0 <= j < k :: before[j] == |groups[j]| && after[j] == 0)
    && after[k] == before[k] + 1
    && (forall j | k < j < |groups| :: after[j] == before[j])
  }

  /** An odometer step adds one to the value. */
  lemma {:induction false} SteppedValue(before: seq<nat>, after: seq<nat>, groups: seq<seq<FreeVar>>, k: nat)
    requires Stepped(before, after, groups, k)
    ensures Value(after, groups) == Value(before, groups) + 1
    decreases k
  {
    if k == 0 {
      assert before[1..] == after[1..];
    } else {
      assert Stepped(before[1..], after[1..], groups[1..], k - 1);
      SteppedValue(before[1..], after[1..], groups[1..], k - 1);
      var m := |groups[0]| + 1;
      assert m * (Value(before[1..], groups[1..]) + 1) == m * Value(before[1..], groups[1..]) + m;
    }
  }

  /**
   * The odometer of `any`: visit every position vector, starting from all zeros and stepping the
   * lowest position with carry, until `f` holds of the picked variables or every vector was seen.
   * `visited` records the vectors in the order they are tried.
   */
  method Enumerate(groups: seq<seq<FreeVar>>, f: set<FreeVar> -> bool) returns (found: bool, ghost visited: seq<seq<nat>>)
    ensures found <==> exists pos :: InRange(pos, groups) && f(Chosen(groups, pos, |pos|))
    ensures forall k | 0 <= k < |visited| :: InRange(visited[k], groups) && Value(visited[k], groups) == k
    ensures found ==> |visited| > 0 && f(Chosen(groups, visited[|visited| - 1], |groups|))
    ensures forall k | 0 <= k < |visited| - 1 :: !f(Chosen(groups, visited[k], |groups|))
    ensures !found ==> |visited| == Total(groups) && forall pos | InRange(pos, groups) :: pos in visited
  {
    var positions: seq<nat> := seq(|groups|, _ => 0);
    ZeroValue(positions, groups);
    ValueBelowTotal(positions, groups);
    visited := [];
    while true
      invariant InRange(positions, groups)
      invariant |visited| == Value(positions, groups) < Total(groups)
      invariant forall k | 0 <= k < |visited| ::
        InRange(visited[k], groups) && Value(visited[k], groups) == k && !f(Chosen(groups, visited[k], |groups|))
      decreases Total(groups) - |visited|
    {
      var chosen := Picked(groups, positions);
      visited := visited + [positions];
      if f(chosen) {
        found := true;
        return;
      }
      var advanced;
      positions, advanced := NextPositions(groups, positions);
      if !advanced {
        break;
      }
      ValueBelowTotal(positions, groups);
    }
    found := false;
    forall pos | InRange(pos, groups)
      ensures pos in visited
    {
      ValueBelowTotal(pos, groups);
      var k := Value(pos, groups);
      ValueInjective(visited[k], pos, groups);
    }
  }

  /** The variables the current positions pick, one per group whose position is not 0. */
  method Picked(groups: seq<seq<FreeVar>>, positions: seq<nat>) returns (chosen: set<FreeVar>)
    requires InRange(positions, groups)
    ensures chosen == Chosen(groups, positions, |groups|)
  {
    chosen := {};
    for i := 0 to |groups|
      invariant chosen == Chosen(groups, positions, i)
    {
      if positions[i] > 0 {
        chosen := chosen + {groups[i][positions[i] - 1]};
      }
      assert Chosen(groups, positions, i + 1) ==
        Chosen(groups, positions, i) + (if positions[i] > 0 then {groups[i][positions[i] - 1]} else {});
    }
  }

  /**
   * Step the odometer: the lowest position goes up by one, wrapping to 0 past the end of its group
   * and carrying into the next. It fails to advance only from the last vector.
   */
  method NextPositions(groups: seq<seq<FreeVar>>, before: seq<nat>) returns (positions: seq<nat>, advanced: bool)
    requires InRange(before, groups)
    ensures advanced ==> InRange(positions, groups) && Value(positions, groups) == Value(before, groups) + 1
    ensures !advanced ==> Value(before, groups) == Total(groups) - 1
  {
    positions := before;
    var i := 0;
    advanced := false;
    while i < |groups|
      invariant 0 <= i <= |groups| && |positions| == |groups| && !advanced
      invariant forall j | 0 <= j < i :: before[j] == |groups[j]| && positions[j] == 0
      invariant forall j | i <= j < |groups| :: positions[j] == before[j]
    {
      positions := positions[i := positions[i] + 1];
      if positions[i] > |groups[i]| {
        positions := positions[i := 0];
        i := i + 1;
      } else {
        advanced := true;
        break;
      }
    }
    if advanced {
      SteppedValue(before, positions, groups, i);
    } else {
      MaxValue(before, groups);
    }
  }

  /** A target property in a well-shaped group gives the group its key. */
  lemma MemberKey(g: seq<FreeVar>, j: nat)
    requires GroupShape(g) && j < |g| && g[j].TargetVar?
    ensures KeyOf(g) == Some(g[j].key)
  {
  }

  lemma PickWithin(groups: seq<seq<FreeVar>>, vars: set<FreeVar>, pos: seq<nat>)
    requires GroupsWithin(groups, vars) && InRange(pos, groups)
    ensures Chosen(groups, pos, |pos|) <= vars
  {
    forall x | x in Chosen(groups, pos, |pos|)
      ensures x in vars
    {
      var i :| 0 <= i < |pos| && pos[i] > 0 && groups[i][pos[i] - 1] == x;
    }
  }

  /** A picked variable comes from the group whose position picks it. */
  lemma PickedFrom(groups: seq<seq<FreeVar>>, pos: seq<nat>, x: FreeVar) returns (i: nat)
    requires InRange(pos, groups) && x in Chosen(groups, pos, |pos|)
    ensures i < |pos| && 0 < pos[i] && groups[i][pos[i] - 1] == x
  {
    i :| 0 <= i < |pos| && pos[i] > 0 && groups[i][pos[i] - 1] == x;
  }

  /** Two target properties with one key picked from a well-formed grouping come from the same group. */
  lemma SameKeySameGroup(groups: seq<seq<FreeVar>>, i1: nat, j1: nat, i2: nat, j2: nat)
    requires (forall i | 0 <= i < |groups| :: GroupShape(groups[i])) && DistinctKeys(groups)
    requires i1 < |groups| && j1 < |groups[i1]| && i2 < |groups| && j2 < |groups[i2]|
    requires groups[i1][j1].TargetVar? && groups[i2][j2].TargetVar? && groups[i1][j1].key == groups[i2][j2].key
    ensures i1 == i2
  {
    MemberKey(groups[i1], j1);
    MemberKey(groups[i2], j2);
  }

  /** No two target properties with one key are picked from groups with distinct keys. */
  lemma ChosenConsistent(groups: seq<seq<FreeVar>>, pos: seq<nat>)
    requires (forall i | 0 <= i < |groups| :: GroupShape(groups[i])) && DistinctKeys(groups)
    requires InRange(pos, groups)
    ensures Consistent(Chosen(groups, pos, |pos|))
  {
    var s := Chosen(groups, pos, |pos|);
    forall a, b | a in s && b in s && a.TargetVar? && b.TargetVar? && a.key == b.key
      ensures a.value == b.value
    {
      var i1 := PickedFrom(groups, pos, a);
      var i2 := PickedFrom(groups, pos, b);
      SameKeySameGroup(groups, i1, pos[i1] - 1, i2, pos[i2] - 1);
    }
  }

  /** Whatever positions pick from a well-formed grouping is a consistent set of its variables. */
  lemma ChosenSound(groups: seq<seq<FreeVar>>, vars: set<FreeVar>, pos: seq<nat>)
    requires WellGrouped(groups, vars) && InRange(pos, groups)
    ensures Chosen(groups, pos, |pos|) <= vars && Consistent(Chosen(groups, pos, |pos|))
  {
    PickWithin(groups, vars, pos);
    ChosenConsistent(groups, pos);
  }

  /** Where no variable is listed twice, distinct position vectors pick distinct sets. */
  lemma ChosenInjective(groups: seq<seq<FreeVar>>, p1: seq<nat>, p2: seq<nat>)
    requires NoRepeats(groups) && InRange(p1, groups) && InRange(p2, groups)
    requires Chosen(groups, p1, |p1|) == Chosen(groups, p2, |p2|)
    ensures p1 == p2
  {
    forall i | 0 <= i < |p1|
      ensures p1[i] == p2[i]
    {
      if p1[i] > 0 {
        PickedIn(groups, p1, i);
        var k := PickedFrom(groups, p2, groups[i][p1[i] - 1]);
      } else if p2[i] > 0 {
        PickedIn(groups, p2, i);
        var k := PickedFrom(groups, p1, groups[i][p2[i] - 1]);
      }
    }
  }

  /** The position of the first variable of `g` that `s` holds, 0 when none is. */
  ghost function FirstIn(g: seq<FreeVar>, s: set<FreeVar>): (r: nat)
    ensures r <= |g|
    ensures r > 0 ==> g[r - 1] in s
    ensures r == 0 ==> forall j | 0 <= j < |g| :: g[j] !in s
  {
    if g == [] then 0
    else if g[0] in s then 1
    else
      var r := FirstIn(g[1..], s);
      if r == 0 then 0 else r + 1
  }

  /** Within one well-shaped group, a consistent set holds at most one variable. */
  lemma OnePerGroup(g: seq<FreeVar>, s: set<FreeVar>, j: nat, k: nat)
    requires GroupShape(g) && Consistent(s) && j < |g| && k < |g| && g[j] in s && g[k] in s
    ensures g[j] == g[k]
  {
    if |g| > 1 {
      assert g[j].TargetVar? && g[k].TargetVar? && g[j].key == g[k].key;
    }
  }

  /** A variable of a well-shaped group in a consistent set is the first one of the group the set holds. */
  lemma PickedOne(g: seq<FreeVar>, s: set<FreeVar>, j: nat)
    requires GroupShape(g) && Consistent(s) && j < |g| && g[j] in s
    ensures FirstIn(g, s) > 0 && g[FirstIn(g, s) - 1] == g[j]
  {
    OnePerGroup(g, s, j, FirstIn(g, s) - 1);
  }

  ghost predicate FirstPicks(groups: seq<seq<FreeVar>>, s: set<FreeVar>, pos: seq<nat>)
  {
    |pos| == |groups| && forall i | 0 <= i < |groups| :: pos[i] == FirstIn(groups[i], s)
  }

  lemma PickedInSet(groups: seq<seq<FreeVar>>, s: set<FreeVar>, pos: seq<nat>)
    requires FirstPicks(groups, s, pos)
    ensures InRange(pos, groups) && Chosen(groups, pos, |pos|) <= s
  {
    forall x | x in Chosen(groups, pos, |pos|)
      ensures x in s
    {
      var i :| 0 <= i < |pos| && pos[i] > 0 && groups[i][pos[i] - 1] == x;
    }
  }

  lemma SetInPicked(groups: seq<seq<FreeVar>>, vars: set<FreeVar>, s: set<FreeVar>, pos: seq<nat>)
    requires FirstPicks(groups, s, pos) && InRange(pos, groups)
    requires (forall i | 0 <= i < |groups| :: GroupShape(groups[i])) && GroupsCover(groups, vars)
    requires s <= vars && Consistent(s)
    ensures s <= Chosen(groups, pos, |pos|)
  {
    forall x | x in s
      ensures x in Chosen(groups, pos, |pos|)
    {
      var i, j := CoveredAt(groups, vars, x);
      PickedOne(groups[i], s, j);
      assert pos[i] == FirstIn(groups[i], s);
      PickedIn(groups, pos, i);
    }
  }

  /** A covered variable sits at some index of some group. */
  lemma CoveredAt(groups: seq<seq<FreeVar>>, vars: set<FreeVar>, x: FreeVar) returns (i: nat, j: nat)
    requires GroupsCover(groups, vars) && x in vars
    ensures i < |groups| && j < |groups[i]| && groups[i][j] == x
  {
    i, j :| 0 <= i < |groups| && 0 <= j < |groups[i]| && groups[i][j] == x;
  }

  /** What a nonzero position picks is among the chosen variables. */
  lemma PickedIn(groups: seq<seq<FreeVar>>, pos: seq<nat>, i: nat)
    requires InRange(pos, groups) && i < |pos| && pos[i] > 0
    ensures groups[i][pos[i] - 1] in Chosen(groups, pos, |pos|)
  {
  }

  /** Every consistent set of the variables is picked by some position vector. */
  lemma ChosenComplete(groups: seq<seq<FreeVar>>, vars: set<FreeVar>, s: set<FreeVar>)
    requires WellGrouped(groups, vars) && s <= vars && Consistent(s)
    ensures exists pos :: InRange(pos, groups) && Chosen(groups, pos, |pos|) == s
  {
    var pos := seq(|groups|, i requires 0 <= i < |groups| => FirstIn(groups[i], s));
    assert FirstPicks(groups, s, pos);
    PickedInSet(groups, s, pos);
    SetInPicked(groups, vars, s, pos);
  }

  /**
   * `any`: whether some consistent set of the free variables of the two configurations satisfies
   * `f`. Sets that pick two values for one target property key are never tried.
   */
  method AnyWitness(one: Config, other: Config, f: set<FreeVar> -> bool) returns (found: bool)
    ensures found <==> exists vars :: vars <= FreeVars(one) + FreeVars(other) && Consistent(vars) && f(vars)
  {
    var freeVars := FindFreeVars(one, {});
    freeVars := FindFreeVars(other, freeVars);
    var options := Options(freeVars);
    ghost var visited;
    found, visited := Enumerate(options, f);
    if found {
      ghost var pos :| InRange(pos, options) && f(Chosen(options, pos, |pos|));
      ChosenSound(options, freeVars, pos);
    } else {
      forall vars | vars <= freeVars && Consistent(vars)
        ensures !f(vars)
      {
        ChosenComplete(options, freeVars, vars);
      }
    }
  }

  /** Restricting an assignment to the free variables of two configurations changes neither's value. */
  lemma Localize(a: Config, b: Config, vars: set<FreeVar>)
    ensures vars * (FreeVars(a) + FreeVars(b)) <= FreeVars(a) + FreeVars(b)
    ensures Consistent(vars) ==> Consistent(vars * (FreeVars(a) + FreeVars(b)))
    ensures Evaluate(a, vars * (FreeVars(a) + FreeVars(b))) == Evaluate(a, vars)
    ensures Evaluate(b, vars * (FreeVars(a) + FreeVars(b))) == Evaluate(b, vars)
  {
    EvaluateLocal(a, vars, FreeVars(a) + FreeVars(b));
    EvaluateLocal(b, vars, FreeVars(a) + FreeVars(b));
  }

  /** `Config::subset`: whether every consistent assignment enabling `c` enables `other`. */
  method Subset(c: Config, other: Config) returns (r: bool)
    ensures r == Entails(c, other)
  {
    if IsUniversal(other) {
      return true;
    }
    var found := AnyWitness(c, other, vars => Evaluate(c, vars) && !Evaluate(other, vars));
    r := !found;
    if r {
      forall vars | Consistent(vars) && Evaluate(c, vars)
        ensures Evaluate(other, vars)
      {
        Localize(c, other, vars);
      }
    }
  }

  /**
   * `Config::intersects`: a universal side intersects anything (even `False`); otherwise whether
   * some consistent assignment enables both.
   */
  method Intersects(c: Config, other: Config) returns (r: bool)
    ensures r == (IsUniversal(c) || IsUniversal(other) || Overlaps(c, other))
  {
    if IsUniversal(c) || IsUniversal(other) {
      return true;
    }
    r := AnyWitness(c, other, vars => Evaluate(c, vars) && Evaluate(other, vars));
    if !r {
      forall vars | Consistent(vars)
        ensures !(Evaluate(c, vars) && Evaluate(other, vars))
      {
        Localize(c, other, vars);
      }
    }
  }

  /** `Config::equivalent`: whether every consistent assignment gives both configurations the same value. */
  method Equivalent(c: Config, other: Config) returns (r: bool)
    ensures r == Agree(c, other)
  {
    if IsUniversal(c) && IsUniversal(other) {
      return true;
    }
    var found := AnyWitness(c, other, vars => Evaluate(c, vars) != Evaluate(other, vars));
    r := !found;
    if r {
      forall vars | Consistent(vars)
        ensures Evaluate(c, vars) == Evaluate(other, vars)
      {
        Localize(c, other, vars);
      }
    }
  }

  // ---------------------------------------------------------------------------------------
  // what the decisions mean

  /** `equivalent` is `subset` both ways. */
  lemma AgreeIsMutualEntailment(a: Config, b: Config)
    ensures Agree(a, b) <==> Entails(a, b) && Entails(b, a)
  {
    if Entails(a, b) && Entails(b, a) {
      forall vars | Consistent(vars)
        ensures Evaluate(a, vars) == Evaluate(b, vars)
      {
        assert Evaluate(a, vars) ==> Evaluate(b, vars);
        assert Evaluate(b, vars) ==> Evaluate(a, vars);
      }
    }
  }

  /**
   * The two constants as identities: `True` entails `x` exactly when `x` is equivalent to `True`,
   * and `x` entails `False` exactly when `x` is equivalent to `False`.
   */
  lemma ConstantIdentities(x: Config)
    ensures Entails(True, x) == Agree(x, True)
    ensures Entails(x, False) == Agree(x, False)
  {
  }

  /** `subset` is reflexive and transitive. */
  lemma EntailsPreorder(a: Config, b: Config, c: Config)
    ensures Entails(a, a)
    ensures Entails(a, b) && Entails(b, c) ==> Entails(a, c)
  {
  }

  /** `#[cfg(arbitrary)]` and `#[cfg(unix)]` may hold together. */
  lemma ArbitraryMeetsUnix()
    ensures Overlaps(Flag("arbitrary"), TargetProperty("target_family", "unix"))
  {
    var vars := {FlagVar("arbitrary"), TargetVar("target_family", "unix")};
    assert Consistent(vars);
    assert Evaluate(Flag("arbitrary"), vars) && Evaluate(TargetProperty("target_family", "unix"), vars);
  }

  /** One target has one operating system: `linux` and `windows` never hold together. */
  lemma LinuxMissesWindows()
    ensures !Overlaps(TargetProperty("target_os", "linux"), TargetProperty("target_os", "windows"))
  {
    assert "linux" != "windows" by {
      assert "linux"[0] != "windows"[0];
    }
  }

  /** A second feature does not bring the first one with it. */
  lemma FeatureTwoWithoutOne()
    ensures Entails(Feature("one"), Feature("one"))
    ensures !Entails(Feature("two"), Feature("one"))
  {
    var vars := {FeatureVar("two")};
    assert "two" != "one" by {
      assert "two"[0] != "one"[0];
    }
    assert Consistent(vars) && Evaluate(Feature("two"), vars);
    assert !Evaluate(Feature("one"), vars);
  }

  /** The checks of `oh_boy_here_we_go`, answered by the decision procedure. */
  method OhBoyHereWeGo() returns (arbitraryUnix: bool, linuxWindows: bool, oneOne: bool, twoOne: bool)
    ensures arbitraryUnix && !linuxWindows && oneOne && !twoOne
  {
    ArbitraryMeetsUnix();
    arbitraryUnix := Intersects(Flag("arbitrary"), TargetProperty("target_family", "unix"));
    LinuxMissesWindows();
    linuxWindows := Intersects(TargetProperty("target_os", "linux"), TargetProperty("target_os", "windows"));
    FeatureTwoWithoutOne();
    oneOne := Subset(Feature("one"), Feature("one"));
    twoOne := Subset(Feature("two"), Feature("one"));
  }

  // ---------------------------------------------------------------------------------------
  // the `{:?}` rendering and `report`

  /** `impl Debug for Config`; `{:?}` of a string is taken as the string in double quotes. */
  function Render(c: Config): string
  {
    match c
    case Not(inner) => "not(" + Render(inner) + ")"
    case All(items) => "all(" + Join(Renderings(items), ", ") + ")"
    case Any(items) => "any(" + Join(Renderings(items), ", ") + ")"
    case TargetProperty(key, value) => key + "=" + Quote(value)
    case Feature(name) => "feature=" + Quote(name)
    case Flag(name) => name
    case True => "__true"
    case False => "__false"
  }

  /** The renderings of the items, in order. */
  function Renderings(items: seq<Config>): (r: seq<string>)
    ensures |r| == |items|
    ensures forall i | 0 <= i < |items| :: r[i] == Render(items[i])
  {
    if items == [] then [] else [Render(items[0])] + Renderings(items[1..])
  }

  /** `fmt_list`: `start`, the items' renderings separated by ", ", then ")". */
  method FmtList(inner: seq<Config>, start: string) returns (out: string)
    ensures out == start + Join(Renderings(inner), ", ") + ")"
  {
    out := start;
    var first := true;
    ghost var parts := Renderings(inner);
    for i := 0 to |inner|
      invariant first <==> i == 0
      invariant out == start + Join(parts[..i], ", ")
    {
      assert parts[..i + 1] == parts[..i] + [Render(inner[i])];
      if first {
        first := false;
      } else {
        out := out + ", ";
        JoinSnoc(parts[..i], ", ", Render(inner[i]));
      }
      out := out + Render(inner[i]);
    }
    assert parts[..|inner|] == parts;
    out := out + ")";
  }

  /**
   * `Config::report`: nothing when `parent` entails `c` (so nothing for `True`), otherwise one
   * Note `prefix#[cfg(..)]`.
   */
  method ReportCfg(c: Config, r: Report, parent: Config, prefix: string)
    modifies r
    ensures IsUniversal(c) ==> r.items == old(r.items)
    ensures Entails(parent, c) ==> r.items == old(r.items)
    ensures !Entails(parent, c) ==> r.items == old(r.items) + [ReportItem(Note, prefix + "#[cfg(" + Render(c) + ")]")]
  {
    var covered := Subset(parent, c);
    if !covered {
      r.Push(Note, prefix + "#[cfg(" + Render(c) + ")]");
    }
  }

  // ---------------------------------------------------------------------------------------
  // from attribute syntax: `Config::new`, `cfg_from_attr_list`, `cfg_from_meta`

  /**
   * A literal of a name-value meta item: a string or anything else. `rendering` stands for the
   * literal's `{:?}` text, which error messages quote.
   */
  datatype Lit = Str(value: string, rendering: string) | Other(rendering: string)

  /** The meta item of an attribute: `word`, `head(items, ..)` or `key = lit`. */
  datatype MetaItem =
    | Word(word: string)
    | List(head: string, items: seq<MetaItem>)
    | NameValue(key: string, lit: Lit)

  /** The keys read as target properties. */
  const TargetKeys: set<string> :=
    {"target_arch", "target_os", "target_family", "target_env", "target_endian", "target_pointer_width", "target_vendor"}

  /** A configuration together with the errors pushed while reading it, in order. */
  datatype Parsed = Parsed(config: Config, errors: seq<ReportItem>)
  datatype ParsedList = ParsedList(configs: seq<Config>, errors: seq<ReportItem>)

  /** No `True` or `False` anywhere: those are for internal use and never come from syntax. */
  predicate NoSentinels(c: Config)
  {
    match c
    case Not(inner) => NoSentinels(inner)
    case All(items) => forall i | 0 <= i < |items| :: NoSentinels(items[i])
    case Any(items) => forall i | 0 <= i < |items| :: NoSentinels(items[i])
    case True => false
    case False => false
    case _ => true
  }

  predicate AllErrors(errors: seq<ReportItem>)
  {
    forall i | 0 <= i < |errors| :: errors[i].severity == Error
  }

  /** `cfg_from_meta`: every error it reports has severity `Error`, and `True`/`False` never appear. */
  function FromMeta(m: MetaItem): (p: Parsed)
    ensures AllErrors(p.errors)
    ensures NoSentinels(p.config)
  {
    match m
    case Word(w) =>
      if w == "unix" || w == "windows" then Parsed(TargetProperty("target_family", w), [])
      else Parsed(Flag(w), [])
    case List(head, items) =>
      if head == "all" then
        var l := FromMetas(items);
        Parsed(All(l.configs), l.errors)
      else if head == "any" then
        var l := FromMetas(items);
        Parsed(Any(l.configs), l.errors)
      else if head == "not" then
        if |items| == 1 then
          var p := FromMeta(items[0]);
          Parsed(Not(p.config), p.errors)
        else
          Parsed(Flag("not"), [ReportItem(Error, "Non-unary #[cfg(not())]")])
      else
        Parsed(Flag(head), [ReportItem(Error, "Unknown #[cfg] list: " + head + "(...)")])
    case NameValue(key, lit) =>
      if !lit.Str? then
        Parsed(Flag(key), [ReportItem(Error, "Non-string #[cfg]: " + key + " = " + lit.rendering)])
      else if key == "feature" then Parsed(Feature(lit.value), [])
      else if key in TargetKeys then Parsed(TargetProperty(key, lit.value), [])
      else if key == "target_has_atomic" then
        // may hold for several values at once, so it is a flag rather than a target property
        Parsed(Flag("target_has_atomic=" + Quote(lit.value)), [])
      else
        Parsed(Flag(key), [ReportItem(Error, "Unknown #[cfg] key-value pair: " + key + " = " + lit.rendering)])
  }

  /** `cfg_from_meta` mapped over a list, errors in item order. */
  function FromMetas(ms: seq<MetaItem>): (l: ParsedList)
    ensures |l.configs| == |ms|
    ensures forall i | 0 <= i < |ms| :: l.configs[i] == FromMeta(ms[i]).config
    ensures AllErrors(l.errors)
    ensures forall i | 0 <= i < |ms| :: NoSentinels(l.configs[i])
  {
    if ms == [] then ParsedList([], [])
    else
      var p := FromMeta(ms[0]);
      var rest := FromMetas(ms[1..]);
      ParsedList([p.config] + rest.configs, p.errors + rest.errors)
  }

  /** The meta items `cfg_from_meta` accepts without an error. */
  ghost predicate WellFormedMeta(m: MetaItem)
  {
    match m
    case Word(_) => true
    case List(head, items) =>
      || ((head == "all" || head == "any") && forall i | 0 <= i < |items| :: WellFormedMeta(items[i]))
      || (head == "not" && |items| == 1 && WellFormedMeta(items[0]))
    case NameValue(key, lit) =>
      lit.Str? && (key == "feature" || key in TargetKeys || key == "target_has_atomic")
  }

  /** A meta item is read without errors exactly when it, and every item inside it, is well formed. */
  lemma {:induction false} NoErrorsIffWellFormed(m: MetaItem)
    ensures FromMeta(m).errors == [] <==> WellFormedMeta(m)
  {
    match m
    case Word(_) =>
    case List(head, items) =>
      if head == "all" || head == "any" {
        ListNoErrorsIffWellFormed(items);
      } else if head == "not" && |items| == 1 {
        NoErrorsIffWellFormed(items[0]);
      }
    case NameValue(_, _) =>
  }

  lemma {:induction false} ListNoErrorsIffWellFormed(ms: seq<MetaItem>)
    ensures FromMetas(ms).errors == [] <==> forall i | 0 <= i < |ms| :: WellFormedMeta(ms[i])
  {
    if ms != [] {
      NoErrorsIffWellFormed(ms[0]);
      ListNoErrorsIffWellFormed(ms[1..]);
      if forall i | 0 <= i < |ms| :: WellFormedMeta(ms[i]) {
        assert forall i | 0 <= i < |ms| - 1 :: WellFormedMeta(ms[1..][i]) by {
          forall i | 0 <= i < |ms| - 1
            ensures WellFormedMeta(ms[1..][i])
          {
            assert ms[1..][i] == ms[i + 1];
          }
        }
      }
      if FromMetas(ms).errors == [] {
        forall i | 0 <= i < |ms|
          ensures WellFormedMeta(ms[i])
        {
          if i > 0 {
            assert ms[i] == ms[1..][i - 1];
          }
        }
      }
    }
  }

  /** The shapes `cfg_from_meta` rejects at the node itself. */
  predicate MalformedNode(m: MetaItem)
  {
    || (m.List? && m.head == "not" && |m.items| != 1)
    || (m.List? && m.head != "all" && m.head != "any" && m.head != "not")
    || (m.NameValue? && !m.lit.Str?)
    || (m.NameValue? && m.lit.Str? && m.key != "feature" && m.key !in TargetKeys && m.key != "target_has_atomic")
  }

  /** A malformed node gives one error and a flag placeholder named after it; its children are not read. */
  lemma MalformedNodeOneError(m: MetaItem)
    requires MalformedNode(m)
    ensures |FromMeta(m).errors| == 1 && FromMeta(m).errors[0].severity == Error
    ensures FromMeta(m).config == Flag(if m.List? then m.head else m.key)
    ensures !WellFormedMeta(m)
  {
  }

  /** `unix` and `windows` are the target families; any other word is a flag. */
  lemma WordMeaning(w: string)
    ensures (w == "unix" || w == "windows") ==> FromMeta(Word(w)) == Parsed(TargetProperty("target_family", w), [])
    ensures !(w == "unix" || w == "windows") ==> FromMeta(Word(w)) == Parsed(Flag(w), [])
  {
  }

  /** `target_has_atomic = "v"` is read as the flag `target_has_atomic="v"`. */
  lemma TargetHasAtomicIsFlag(v: string, rendering: string)
    ensures FromMeta(NameValue("target_has_atomic", Str(v, rendering))) == Parsed(Flag("target_has_atomic=" + Quote(v)), [])
  {
  }

  /** An attribute `cfg(x)` with exactly one item. */
  predicate IsUnaryCfg(attr: MetaItem)
  {
    attr.List? && attr.head == "cfg" && |attr.items| == 1
  }

  /** The single items of the unary `cfg` attributes, in order; all other attributes are skipped. */
  function CfgArguments(attrs: seq<MetaItem>): (r: seq<MetaItem>)
    ensures |r| <= |attrs|
    ensures r == [] <==> forall i | 0 <= i < |attrs| :: !IsUnaryCfg(attrs[i])
  {
    if attrs == [] then []
    else (if IsUnaryCfg(attrs[0]) then [attrs[0].items[0]] else []) + CfgArguments(attrs[1..])
  }

  lemma {:induction false} CfgArgumentsConcat(a: seq<MetaItem>, b: seq<MetaItem>)
    ensures CfgArguments(a + b) == CfgArguments(a) + CfgArguments(b)
  {
    if a == [] {
      assert a + b == b;
    } else {
      var head := if IsUnaryCfg(a[0]) then [a[0].items[0]] else [];
      assert (a + b)[0] == a[0] && (a + b)[1..] == a[1..] + b;
      assert CfgArguments(a + b) == head + CfgArguments(a[1..] + b);
      CfgArgumentsConcat(a[1..], b);
      AppendAssoc(head, CfgArguments(a[1..]), CfgArguments(b));
    }
  }

  /** The outcome of `cfg_from_attr_list`: `None` for "no condition", with the errors reported. */
  datatype AttrParse = AttrParse(config: Option<Config>, errors: seq<ReportItem>)

  /** `cfg_from_attr_list`: no unary `cfg` gives `None`, one gives its condition bare, several an `All`. */
  function FromAttrList(attrs: seq<MetaItem>): (r: AttrParse)
    ensures r.config.None? <==> forall i | 0 <= i < |attrs| :: !IsUnaryCfg(attrs[i])
    ensures |CfgArguments(attrs)| == 1 ==> r.config == Some(FromMeta(CfgArguments(attrs)[0]).config)
    ensures |CfgArguments(attrs)| > 1 ==>
      r.config.Some? && r.config.value.All? && |r.config.value.items| == |CfgArguments(attrs)|
      && forall i | 0 <= i < |CfgArguments(attrs)| :: r.config.value.items[i] == FromMeta(CfgArguments(attrs)[i]).config
    ensures r.errors == FromMetas(CfgArguments(attrs)).errors
  {
    var l := FromMetas(CfgArguments(attrs));
    if |l.configs| == 0 then AttrParse(None, l.errors)
    else if |l.configs| == 1 then AttrParse(Some(l.configs[0]), l.errors)
    else AttrParse(Some(All(l.configs)), l.errors)
  }

  /** What `Config::new` returns, and the errors it pushes: no condition means `True`. */
  function ConfigOf(attrs: seq<MetaItem>): (p: Parsed)
    ensures (forall i | 0 <= i < |attrs| :: !IsUnaryCfg(attrs[i])) ==> p == Parsed(True, [])
    ensures AllErrors(p.errors)
  {
    var a := FromAttrList(attrs);
    Parsed(if a.config.Some? then a.config.value else True, a.errors)
  }

  /** A `cfg` attribute with other than one item is skipped silently: adding one changes nothing. */
  lemma NonUnaryCfgIgnored(before: seq<MetaItem>, attr: MetaItem, after: seq<MetaItem>)
    requires attr.List? && attr.head == "cfg" && |attr.items| != 1
    ensures ConfigOf(before + [attr] + after) == ConfigOf(before + after)
  {
    CfgArgumentsConcat(before + [attr], after);
    CfgArgumentsConcat(before, [attr]);
    CfgArgumentsConcat(before, after);
    assert CfgArguments([attr]) == [];
    assert CfgArguments(before + [attr]) == CfgArguments(before);
    assert CfgArguments(before + [attr] + after) == CfgArguments(before + after);
  }

  /** `Config::new`: read the attributes, pushing every error onto the report. */
  method New(r: Report, attrs: seq<MetaItem>) returns (c: Config)
    modifies r
    ensures c == ConfigOf(attrs).config
    ensures r.items == old(r.items) + ConfigOf(attrs).errors
  {
    var p := ConfigOf(attrs);
    r.PushAll(p.errors);
    c := p.config;
  }
}
