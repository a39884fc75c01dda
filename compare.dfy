/**
 * The comparison engine of src/compare.rs: every public item of the old module is looked up by
 * name in the new one and classified, following Rust RFC 1105 ("API evolution"), as removed,
 * made private, no longer of its kind, narrowed in its `#[cfg]` coverage, or changed in a
 * kind-specific way; child modules are compared after the item loop.
 */
module Compare {
  import opened Basics
  import opened Reports
  import opened Cfg

  // ---------------------------------------------------------------------------------------
  // items, reduced to what the comparison reads

  datatype Visibility = Public | CrateVisible | Restricted | Inherited
  datatype Mutability = Mutable | Immutable
  datatype Unsafety = Unsafe | Normal
  datatype Constness = Const | NotConst

  /** Item kinds that count as public whatever their visibility says. */
  datatype ImplicitlyPublic = ForeignMod | DefaultImpl | Impl | Mac

  /**
   * The kinds the engine distinguishes. A type, an ABI, a declaration and generics are carried as
   * their `{:?}` renderings; `descr` is the kind's descriptive name.
   */
  datatype ItemKind =
    | ModItem(body: Module)
    | ConstItem(ty: string)
    | StaticItem(ty: string, mutability: Mutability)
    | FnItem(variadic: bool, unsafety: Unsafety, constness: Constness, abi: string, decl: string, generics: string)
    | AlwaysPublicItem(form: ImplicitlyPublic, descr: string)
    | OtherItem(descr: string)

  datatype Item = Item(name: string, vis: Visibility, kind: ItemKind, attrs: seq<MetaItem>)
  datatype Module = Module(items: seq<Item>)
  datatype Crate = Crate(attrs: seq<MetaItem>, root: Module)

  /** `is_public`: foreign modules, default impls, impls and macro invocations always are. */
  predicate IsPublic(item: Item)
  {
    match item.kind
    case AlwaysPublicItem(_, _) => true
    case _ => item.vis == Public
  }

  /** `types_equal`: two types agree when their renderings are the same string. */
  predicate TypesEqual(lhs: string, rhs: string)
  {
    lhs == rhs
  }

  lemma TypesEqualIsEquality(lhs: string, rhs: string)
    ensures TypesEqual(lhs, rhs) <==> lhs == rhs
    ensures TypesEqual(lhs, rhs) == TypesEqual(rhs, lhs)
  {
  }

  lemma ImplicitlyPublicKinds(item: Item)
    ensures item.kind.AlwaysPublicItem? ==> IsPublic(item)
    ensures !item.kind.AlwaysPublicItem? ==> (IsPublic(item) <==> item.vis == Public)
  {
  }

  /** `stringify!` of the kind passed to `find_item!`. */
  function KindName(k: ItemKind): string
  {
    match k
    case ModItem(_) => "mod"
    case ConstItem(_) => "const"
    case StaticItem(_, _) => "static"
    case FnItem(_, _, _, _, _, _) => "fn"
    case AlwaysPublicItem(_, _) => "item"
    case OtherItem(_) => "item"
  }

  function MutabilityName(m: Mutability): string
  {
    match m
    case Mutable => "Mutable"
    case Immutable => "Immutable"
  }

  function UnsafetyName(u: Unsafety): string
  {
    match u
    case Unsafe => "Unsafe"
    case Normal => "Normal"
  }

  function ConstnessName(c: Constness): string
  {
    match c
    case Const => "Const"
    case NotConst => "NotConst"
  }

  // ---------------------------------------------------------------------------------------
  // the per-kind blocks handed to `find_item!`

  /**
   * What a block does for one candidate: whether the candidate is of a matching kind, what it
   * pushed, and the new child modules it recorded for later comparison.
   */
  datatype Outcome = Outcome(matched: bool, pushed: seq<ReportItem>, kids: seq<Module>)

  /** `changed!(r, Major, what, (was => now))`. */
  function ChangedItem(what: string, was: string, now: string): ReportItem
  {
    ReportItem(Breaking, ChangedText(what, was, now))
  }

  /** The type check both paths of the const and static blocks share. */
  function TypeCheck(what: string, ty: string, newTy: string): (pushed: seq<ReportItem>)
    ensures pushed == [] <==> TypesEqual(ty, newTy)
    ensures |pushed| <= 1 && forall i | 0 <= i < |pushed| :: pushed[i].severity == Breaking
  {
    if TypesEqual(ty, newTy) then [] else [ChangedItem(what, ty, newTy)]
  }

  /** A mismatch pushes the one Major `changed!` item naming both renderings. */
  lemma TypeCheckItem(what: string, ty: string, newTy: string)
    requires !TypesEqual(ty, newTy)
    ensures TypeCheck(what, ty, newTy) == [ReportItem(Breaking, ChangedText(what, ty, newTy))]
  {
  }

  /** A module matches only a module, records it as a child, and pushes nothing. */
  function ModBlock(k: ItemKind): (o: Outcome)
    ensures o.matched <==> k.ModItem?
    ensures o.pushed == []
    ensures o.matched ==> o.kids == [k.body]
    ensures !o.matched ==> o.kids == []
  {
    if k.ModItem? then Outcome(true, [], [k.body]) else Outcome(false, [], [])
  }

  /**
   * The const block: a const or a static may replace a const. A `static mut` is a major change,
   * an immutable static a minor one; a changed type is major on both paths.
   */
  function ConstBlock(name: string, ty: string, k: ItemKind): (o: Outcome)
    ensures o.matched <==> k.ConstItem? || k.StaticItem?
    ensures o.kids == []
    ensures !o.matched ==> o.pushed == []
    ensures k.ConstItem? ==> |o.pushed| <= 1 && forall i | 0 <= i < |o.pushed| :: o.pushed[i].severity == Breaking
    ensures k.ConstItem? ==> (o.pushed == [] <==> TypesEqual(ty, k.ty))
    ensures k.StaticItem? ==> |o.pushed| == (if TypesEqual(ty, k.ty) then 1 else 2)
    ensures k.StaticItem? && k.mutability == Mutable ==> o.pushed[0].severity == Breaking
    ensures k.StaticItem? && k.mutability == Immutable ==> o.pushed[0].severity == Minor
    ensures k.StaticItem? ==> forall i | 1 <= i < |o.pushed| :: o.pushed[i].severity == Breaking
  {
    match k
    case ConstItem(newTy) => Outcome(true, TypeCheck("const " + name + "'s type", ty, newTy), [])
    case StaticItem(newTy, mutability) =>
      var replaced :=
        if mutability != Immutable then ReportItem(Breaking, "const " + name + " replaced by static mut")
        else ReportItem(Minor, "const " + name + " replaced by static");
      Outcome(true, [replaced] + TypeCheck("const " + name + "'s type", ty, newTy), [])
    case _ => Outcome(false, [], [])
  }

  /**
   * The static block: a const replacing a static is major; so is a changed type or a changed
   * mutability between statics.
   */
  function StaticBlock(name: string, ty: string, mutability: Mutability, k: ItemKind): (o: Outcome)
    ensures o.matched <==> k.ConstItem? || k.StaticItem?
    ensures o.kids == []
    ensures !o.matched ==> o.pushed == []
    ensures forall i | 0 <= i < |o.pushed| :: o.pushed[i].severity == Breaking
    ensures k.ConstItem? ==> |o.pushed| == (if TypesEqual(ty, k.ty) then 1 else 2)
    ensures k.ConstItem? ==> o.pushed[0].text == "static " + name + " replaced by const"
    ensures k.StaticItem? ==> (o.pushed == [] <==> TypesEqual(ty, k.ty) && mutability == k.mutability)
  {
    match k
    case ConstItem(newTy) =>
      Outcome(true, [ReportItem(Breaking, "static " + name + " replaced by const")] + TypeCheck("static " + name + "'s type", ty, newTy), [])
    case StaticItem(newTy, newMutability) =>
      var mutabilityCheck :=
        if mutability != newMutability then
          [ChangedItem("static " + name + "'s mutability", MutabilityName(mutability), MutabilityName(newMutability))]
        else [];
      Outcome(true, TypeCheck("static " + name + "'s type", ty, newTy) + mutabilityCheck, [])
    case _ => Outcome(false, [], [])
  }

  /**
   * The fn block: a changed unsafety, a const fn made non-const, or a changed ABI is major;
   * making a fn const is not reported.
   */
  function FnBlock(name: string, unsafety: Unsafety, constness: Constness, abi: string, k: ItemKind): (o: Outcome)
    ensures o.matched <==> k.FnItem?
    ensures o.kids == []
    ensures !o.matched ==> o.pushed == []
    ensures forall i | 0 <= i < |o.pushed| :: o.pushed[i].severity == Breaking
    ensures k.FnItem? ==>
      (o.pushed == [] <==> unsafety == k.unsafety && !(constness == Const && k.constness == NotConst) && abi == k.abi)
    ensures k.FnItem? ==> |o.pushed| <= 3
  {
    match k
    case FnItem(_, newUnsafety, newConstness, newAbi, _, _) =>
      var unsafetyCheck :=
        if unsafety != newUnsafety then
          [ChangedItem("fn " + name + "'s unsafety", UnsafetyName(unsafety), UnsafetyName(newUnsafety))]
        else [];
      var constCheck :=
        if constness == Const && newConstness == NotConst then [ReportItem(Breaking, "fn " + name + " was made non-const")]
        else [];
      var abiCheck := if abi != newAbi then [ChangedItem("fn " + name + "'s abi", abi, newAbi)] else [];
      Outcome(true, unsafetyCheck + constCheck + abiCheck, [])
    case _ => Outcome(false, [], [])
  }

  /**
   * The fn block pushes one item per reported change, in the order the checks run: the unsafety,
   * then a const fn made non-const, then the ABI.
   */
  lemma FnBlockItems(name: string, unsafety: Unsafety, constness: Constness, abi: string, k: ItemKind)
    requires k.FnItem?
    ensures var o := FnBlock(name, unsafety, constness, abi, k);
      var u := unsafety != k.unsafety;
      var c := constness == Const && k.constness == NotConst;
      var a := abi != k.abi;
      && |o.pushed| == (if u then 1 else 0) + (if c then 1 else 0) + (if a then 1 else 0)
      && (u ==> o.pushed[0] == ChangedItem("fn " + name + "'s unsafety", UnsafetyName(unsafety), UnsafetyName(k.unsafety)))
      && (c ==> o.pushed[if u then 1 else 0] == ReportItem(Breaking, "fn " + name + " was made non-const"))
      && (a ==> o.pushed[|o.pushed| - 1] == ChangedItem("fn " + name + "'s abi", abi, k.abi))
  {
  }

  /** The block `compare_mods` passes for the old item's kind. */
  function KindBlock(item: Item, cand: Item): (o: Outcome)
    ensures !o.matched ==> o.pushed == [] && o.kids == []
    ensures o.kids != [] ==> item.kind.ModItem?
    ensures item.kind.ModItem? ==> (o.matched <==> cand.kind.ModItem?)
  {
    match item.kind
    case ModItem(_) => ModBlock(cand.kind)
    case ConstItem(ty) => ConstBlock(item.name, ty, cand.kind)
    case StaticItem(ty, mutability) => StaticBlock(item.name, ty, mutability, cand.kind)
    case FnItem(_, unsafety, constness, abi, _, _) => FnBlock(item.name, unsafety, constness, abi, cand.kind)
    case _ => Outcome(false, [], [])
  }

  /** The block runs for the old item and pushes what `KindBlock` says. */
  method RunBlock(r: Report, item: Item, cand: Item) returns (matched: bool, kids: seq<Module>)
    modifies r
    ensures matched == KindBlock(item, cand).matched && kids == KindBlock(item, cand).kids
    ensures r.items == old(r.items) + KindBlock(item, cand).pushed
  {
    var o := KindBlock(item, cand);
    r.PushAll(o.pushed);
    matched, kids := o.matched, o.kids;
  }

  // ---------------------------------------------------------------------------------------
  // `find_item_l`: the scan over the new items and the verdict

  /** What `intersects` answers. */
  ghost predicate Meets(a: Config, b: Config)
  {
    IsUniversal(a) || IsUniversal(b) || Overlaps(a, b)
  }

  /** A candidate whose configuration is unioned: same name, public, meeting `our`, accepted by the block. */
  ghost predicate Matches(our: Config, item: Item, cand: Item)
  {
    cand.name == item.name && IsPublic(cand) && Meets(our, ConfigOf(cand.attrs).config) && KindBlock(item, cand).matched
  }

  /** The state of the scan: the three flags, `their_config`, what was pushed, and the recorded children. */
  datatype Scan = Scan(anyFound: bool, pubFound: bool, kindFound: bool, their: Config, pushed: seq<ReportItem>, kids: seq<Module>)

  /** One round of the loop of `find_item_l` on candidate `cand`. */
  ghost function ScanStep(s: Scan, our: Config, item: Item, cand: Item): (t: Scan)
    ensures s.kids != [] || t.kids != [] ==> (s.kids != [] || item.kind.ModItem?)
  {
    if cand.name != item.name then s
    else if !IsPublic(cand) then s.(anyFound := true)
    else
      var current := ConfigOf(cand.attrs);
      var seen := s.(anyFound := true, pubFound := true, pushed := s.pushed + current.errors);
      if !Meets(our, current.config) then seen
      else
        var o := KindBlock(item, cand);
        if !o.matched then seen
        else seen.(kindFound := true, their := Union(s.their, current.config),
                   pushed := seen.pushed + o.pushed, kids := s.kids + o.kids)
  }

  /** The scan after the first `n` candidates. */
  ghost function ScanUpTo(our: Config, item: Item, cands: seq<Item>, n: nat): (s: Scan)
    requires n <= |cands|
    ensures s.kids != [] ==> item.kind.ModItem?
  {
    if n == 0 then Scan(false, false, false, False, [], [])
    else ScanStep(ScanUpTo(our, item, cands, n - 1), our, item, cands[n - 1])
  }

  /** A round on a candidate with another name changes nothing. */
  lemma StepOther(s: Scan, our: Config, item: Item, cand: Item)
    requires cand.name != item.name
    ensures ScanStep(s, our, item, cand) == s
  {
  }

  /** A round on a private namesake only records that the name was found. */
  lemma StepPrivate(s: Scan, our: Config, item: Item, cand: Item)
    requires cand.name == item.name && !IsPublic(cand)
    ensures ScanStep(s, our, item, cand) == s.(anyFound := true)
  {
  }

  /**
   * A round on a public namesake that does not intersect `our` records it and pushes its parse
   * errors; the block is not consulted.
   */
  lemma StepDisjoint(s: Scan, our: Config, item: Item, cand: Item)
    requires cand.name == item.name && IsPublic(cand) && !Meets(our, ConfigOf(cand.attrs).config)
    ensures ScanStep(s, our, item, cand) ==
      s.(anyFound := true, pubFound := true, pushed := s.pushed + ConfigOf(cand.attrs).errors)
  {
  }

  /** A round on an intersecting public namesake also pushes what the block pushes. */
  lemma StepRejected(s: Scan, our: Config, item: Item, cand: Item)
    requires cand.name == item.name && IsPublic(cand) && Meets(our, ConfigOf(cand.attrs).config)
    requires !KindBlock(item, cand).matched
    ensures ScanStep(s, our, item, cand) ==
      s.(anyFound := true, pubFound := true,
         pushed := s.pushed + ConfigOf(cand.attrs).errors + KindBlock(item, cand).pushed)
  {
  }

  /** A matching round also unions its configuration into `their` and records the block's children. */
  lemma StepMatched(s: Scan, our: Config, item: Item, cand: Item)
    requires cand.name == item.name && IsPublic(cand) && Meets(our, ConfigOf(cand.attrs).config)
    requires KindBlock(item, cand).matched
    ensures ScanStep(s, our, item, cand) ==
      s.(anyFound := true, pubFound := true, kindFound := true, their := Union(s.their, ConfigOf(cand.attrs).config),
         pushed := s.pushed + ConfigOf(cand.attrs).errors + KindBlock(item, cand).pushed,
         kids := s.kids + KindBlock(item, cand).kids)
  {
  }

  lemma AnyFoundRound(our: Config, item: Item, cands: seq<Item>, n: nat)
    requires 0 < n <= |cands|
    ensures ScanUpTo(our, item, cands, n).anyFound ==
      (ScanUpTo(our, item, cands, n - 1).anyFound || cands[n - 1].name == item.name)
  {
  }

  lemma PubFoundRound(our: Config, item: Item, cands: seq<Item>, n: nat)
    requires 0 < n <= |cands|
    ensures ScanUpTo(our, item, cands, n).pubFound ==
      (ScanUpTo(our, item, cands, n - 1).pubFound || (cands[n - 1].name == item.name && IsPublic(cands[n - 1])))
  {
  }

  lemma KindFoundRound(our: Config, item: Item, cands: seq<Item>, n: nat)
    requires 0 < n <= |cands|
    ensures ScanUpTo(our, item, cands, n).kindFound ==
      (ScanUpTo(our, item, cands, n - 1).kindFound || Matches(our, item, cands[n - 1]))
  {
  }

  lemma TheirRound(our: Config, item: Item, cands: seq<Item>, n: nat)
    requires 0 < n <= |cands|
    ensures var s := ScanUpTo(our, item, cands, n - 1);
      var t := ScanUpTo(our, item, cands, n);
      t.their == if Matches(our, item, cands[n - 1]) then Union(s.their, ConfigOf(cands[n - 1].attrs).config) else s.their
  {
  }

  /** `any_found` after `n` candidates: some of them has the name. */
  lemma {:induction false} ScanAnyFound(our: Config, item: Item, cands: seq<Item>, n: nat)
    requires n <= |cands|
    ensures ScanUpTo(our, item, cands, n).anyFound <==> exists i | 0 <= i < n :: cands[i].name == item.name
  {
    if n > 0 {
      ScanAnyFound(our, item, cands, n - 1);
      AnyFoundRound(our, item, cands, n);
    }
  }

  /** `pub_found` after `n` candidates: some of them is a public namesake. */
  lemma {:induction false} ScanPubFound(our: Config, item: Item, cands: seq<Item>, n: nat)
    requires n <= |cands|
    ensures ScanUpTo(our, item, cands, n).pubFound <==>
      exists i | 0 <= i < n :: cands[i].name == item.name && IsPublic(cands[i])
  {
    if n > 0 {
      ScanPubFound(our, item, cands, n - 1);
      PubFoundRound(our, item, cands, n);
    }
  }

  /** `kind_found` after `n` candidates: some of them matches. */
  lemma {:induction false} ScanKindFound(our: Config, item: Item, cands: seq<Item>, n: nat)
    requires n <= |cands|
    ensures ScanUpTo(our, item, cands, n).kindFound <==> exists i | 0 <= i < n :: Matches(our, item, cands[i])
  {
    if n > 0 {
      ScanKindFound(our, item, cands, n - 1);
      KindFoundRound(our, item, cands, n);
    }
  }

  /** Some of the first `n` candidates matches and holds under `vars`. */
  ghost predicate SomeMatchHolds(our: Config, item: Item, cands: seq<Item>, n: nat, vars: set<FreeVar>)
    requires n <= |cands|
  {
    exists i | 0 <= i < n :: Matches(our, item, cands[i]) && Evaluate(ConfigOf(cands[i].attrs).config, vars)
  }

  lemma SomeMatchHoldsRound(our: Config, item: Item, cands: seq<Item>, n: nat, vars: set<FreeVar>)
    requires 0 < n <= |cands|
    ensures SomeMatchHolds(our, item, cands, n, vars) <==>
      SomeMatchHolds(our, item, cands, n - 1, vars)
      || (Matches(our, item, cands[n - 1]) && Evaluate(ConfigOf(cands[n - 1].attrs).config, vars))
  {
  }

  /** `their_config` stays `False` while no candidate has matched. */
  lemma {:induction false} ScanTheirsUnmatched(our: Config, item: Item, cands: seq<Item>, n: nat)
    requires n <= |cands|
    requires forall i | 0 <= i < n :: !Matches(our, item, cands[i])
    ensures ScanUpTo(our, item, cands, n).their == False
  {
    if n > 0 {
      ScanTheirsUnmatched(our, item, cands, n - 1);
      TheirRound(our, item, cands, n);
    }
  }

  /** `their_config` holds exactly where some matching candidate's configuration holds. */
  lemma {:induction false} ScanTheirs(our: Config, item: Item, cands: seq<Item>, n: nat)
    requires n <= |cands|
    ensures forall vars :: Evaluate(ScanUpTo(our, item, cands, n).their, vars) <==> SomeMatchHolds(our, item, cands, n, vars)
  {
    if n > 0 {
      ScanTheirs(our, item, cands, n - 1);
      TheirRound(our, item, cands, n);
      forall vars
        ensures Evaluate(ScanUpTo(our, item, cands, n).their, vars) <==> SomeMatchHolds(our, item, cands, n, vars)
      {
        SomeMatchHoldsRound(our, item, cands, n, vars);
      }
    }
  }

  /** Every consistent assignment enabling `our` enables some matching candidate. */
  ghost predicate Covered(our: Config, item: Item, cands: seq<Item>)
  {
    forall vars | Consistent(vars) && Evaluate(our, vars) :: SomeMatchHolds(our, item, cands, |cands|, vars)
  }

  function Label(item: Item): string
  {
    KindName(item.kind) + " " + item.name
  }

  /** The verdict pushed after the scan, if any. */
  ghost function Verdict(item: Item, our: Config, anyFound: bool, pubFound: bool, kindFound: bool, their: Config): (v: seq<ReportItem>)
    ensures |v| <= 1
    ensures forall i | 0 <= i < |v| :: v[i].severity == Breaking
  {
    if !anyFound then [ReportItem(Breaking, Label(item) + " was removed")]
    else if !pubFound then [ReportItem(Breaking, Label(item) + " was made private")]
    else if !kindFound then [ReportItem(Breaking, Label(item) + " is no longer a " + KindName(item.kind))]
    else if !Entails(our, their) then
      [ReportItem(Breaking, Label(item) + " has been narrowed:\n  Was: " + Render(our) + "\n  Now: " + Render(Simplified(their)))]
    else []
  }

  /** What one `find_item!` pushes, and the children it records. */
  datatype ItemResult = ItemResult(pushed: seq<ReportItem>, kids: seq<Module>)

  ghost function FindItemSpec(item: Item, cands: seq<Item>): (f: ItemResult)
    ensures f.kids != [] ==> item.kind.ModItem?
  {
    var ours := ConfigOf(item.attrs);
    var s := ScanUpTo(ours.config, item, cands, |cands|);
    ItemResult(ours.errors + s.pushed + Verdict(item, ours.config, s.anyFound, s.pubFound, s.kindFound, s.their), s.kids)
  }

  /**
   * The verdict of `find_item_l` for one old item: removed when no new item has its name; made
   * private when none of those is public; no longer of its kind when no public one both intersects
   * the old `#[cfg]` and passes the block; otherwise narrowed exactly when the old `#[cfg]` is not
   * covered by the matching candidates. Never more than one of these.
   */
  lemma VerdictCases(item: Item, cands: seq<Item>)
    ensures var our := ConfigOf(item.attrs).config;
      var s := ScanUpTo(our, item, cands, |cands|);
      var v := Verdict(item, our, s.anyFound, s.pubFound, s.kindFound, s.their);
      && |v| <= 1
      && ((forall i | 0 <= i < |cands| :: cands[i].name != item.name) ==>
            v == [ReportItem(Breaking, Label(item) + " was removed")])
      && ((exists i | 0 <= i < |cands| :: cands[i].name == item.name) &&
          (forall i | 0 <= i < |cands| && cands[i].name == item.name :: !IsPublic(cands[i])) ==>
            v == [ReportItem(Breaking, Label(item) + " was made private")])
      && ((exists i | 0 <= i < |cands| :: cands[i].name == item.name && IsPublic(cands[i])) &&
          (forall i | 0 <= i < |cands| :: !Matches(our, item, cands[i])) ==>
            v == [ReportItem(Breaking, Label(item) + " is no longer a " + KindName(item.kind))])
      && ((exists i | 0 <= i < |cands| :: Matches(our, item, cands[i])) ==>
            (v == [] <==> Covered(our, item, cands)))
  {
    var our := ConfigOf(item.attrs).config;
    var s := ScanUpTo(our, item, cands, |cands|);
    ScanAnyFound(our, item, cands, |cands|);
    ScanPubFound(our, item, cands, |cands|);
    ScanKindFound(our, item, cands, |cands|);
    ScanTheirs(our, item, cands, |cands|);
    if exists i | 0 <= i < |cands| :: Matches(our, item, cands[i]) {
      assert s.kindFound && s.anyFound && s.pubFound;
      assert Entails(our, s.their) <==> Covered(our, item, cands);
    }
  }

  /** Candidates that are not public namesakes push nothing and record no children. */
  lemma {:induction false} NoPublicNamesakeScanSilent(our: Config, item: Item, cands: seq<Item>, n: nat)
    requires n <= |cands|
    requires forall i | 0 <= i < n :: cands[i].name != item.name || !IsPublic(cands[i])
    ensures ScanUpTo(our, item, cands, n).pushed == [] && ScanUpTo(our, item, cands, n).kids == []
  {
    if n > 0 {
      NoPublicNamesakeScanSilent(our, item, cands, n - 1);
      var s := ScanUpTo(our, item, cands, n - 1);
      if cands[n - 1].name != item.name {
        StepOther(s, our, item, cands[n - 1]);
      } else {
        StepPrivate(s, our, item, cands[n - 1]);
      }
    }
  }

  /**
   * An old item without a public namesake gets, after its own attribute errors, exactly one Major
   * item: "was removed" when no new item has its name, "was made private" otherwise.
   */
  lemma NoPublicNamesake(item: Item, cands: seq<Item>)
    requires forall i | 0 <= i < |cands| :: cands[i].name != item.name || !IsPublic(cands[i])
    ensures FindItemSpec(item, cands).kids == []
    ensures (forall i | 0 <= i < |cands| :: cands[i].name != item.name) ==>
      FindItemSpec(item, cands).pushed == ConfigOf(item.attrs).errors + [ReportItem(Breaking, Label(item) + " was removed")]
    ensures (exists i | 0 <= i < |cands| :: cands[i].name == item.name) ==>
      FindItemSpec(item, cands).pushed == ConfigOf(item.attrs).errors + [ReportItem(Breaking, Label(item) + " was made private")]
  {
    NoPublicNamesakeScanSilent(ConfigOf(item.attrs).config, item, cands, |cands|);
    VerdictCases(item, cands);
  }

  /** The loop of `find_item_l` over the new items, pushing what the scan pushes. */
  method ScanCandidates(r: Report, ourConfig: Config, item: Item, cands: seq<Item>)
    returns (anyFound: bool, pubFound: bool, kindFound: bool, theirConfig: Config, kids: seq<Module>)
    modifies r
    ensures ScanUpTo(ourConfig, item, cands, |cands|) ==
      Scan(anyFound, pubFound, kindFound, theirConfig, ScanUpTo(ourConfig, item, cands, |cands|).pushed, kids)
    ensures r.items == old(r.items) + ScanUpTo(ourConfig, item, cands, |cands|).pushed
  {
    anyFound, pubFound, kindFound := false, false, false;
    theirConfig := False;
    kids := [];
    ghost var start := r.items;
    ghost var pushed: seq<ReportItem> := [];
    for i := 0 to |cands|
      invariant r.items == start + pushed
      invariant ScanUpTo(ourConfig, item, cands, i) == Scan(anyFound, pubFound, kindFound, theirConfig, pushed, kids)
    {
      ghost var delta;
      anyFound, pubFound, kindFound, theirConfig, kids, delta :=
        ScanOne(r, ourConfig, item, cands[i], pushed, anyFound, pubFound, kindFound, theirConfig, kids);
      AppendAssoc(start, pushed, delta);
      pushed := pushed + delta;
    }
  }

  /** One round of the loop: the body of `find_item_l` for the candidate `cand`. */
  method ScanOne(r: Report, ourConfig: Config, item: Item, cand: Item, ghost pushed: seq<ReportItem>,
                 anyFound: bool, pubFound: bool, kindFound: bool, theirConfig: Config, kids: seq<Module>)
    returns (anyAfter: bool, pubAfter: bool, kindAfter: bool, theirAfter: Config, kidsAfter: seq<Module>,
             ghost delta: seq<ReportItem>)
    modifies r
    ensures ScanStep(Scan(anyFound, pubFound, kindFound, theirConfig, pushed, kids), ourConfig, item, cand)
      == Scan(anyAfter, pubAfter, kindAfter, theirAfter, pushed + delta, kidsAfter)
    ensures r.items == old(r.items) + delta
  {
    ghost var s := Scan(anyFound, pubFound, kindFound, theirConfig, pushed, kids);
    anyAfter, pubAfter, kindAfter, theirAfter, kidsAfter, delta := anyFound, pubFound, kindFound, theirConfig, kids, [];
    if cand.name != item.name {
      StepOther(s, ourConfig, item, cand);
    } else if !IsPublic(cand) {
      StepPrivate(s, ourConfig, item, cand);
      anyAfter := true;
    } else {
      anyAfter, pubAfter := true, true;
      ghost var before := r.items;
      var currentConfig := New(r, cand.attrs);
      ghost var errors := ConfigOf(cand.attrs).errors;
      delta := errors;
      var meets := Intersects(ourConfig, currentConfig);
      if !meets {
        StepDisjoint(s, ourConfig, item, cand);
      } else {
        ghost var block := KindBlock(item, cand);
        var matched, found := RunBlock(r, item, cand);
        AppendAssoc(before, errors, block.pushed);
        AppendAssoc(pushed, errors, block.pushed);
        delta := errors + block.pushed;
        if !matched {
          StepRejected(s, ourConfig, item, cand);
        } else {
          StepMatched(s, ourConfig, item, cand);
          theirAfter := UnionWith(theirConfig, currentConfig);
          kindAfter := true;
          kidsAfter := kids + found;
        }
      }
    }
  }

  /** The verdict, pushed after the scan. */
  method PushVerdict(r: Report, item: Item, ourConfig: Config, anyFound: bool, pubFound: bool, kindFound: bool, theirConfig: Config)
    modifies r
    ensures r.items == old(r.items) + Verdict(item, ourConfig, anyFound, pubFound, kindFound, theirConfig)
  {
    var heading := KindName(item.kind) + " " + item.name;
    if !anyFound {
      r.Push(Breaking, heading + " was removed");
    } else if !pubFound {
      r.Push(Breaking, heading + " was made private");
    } else if !kindFound {
      r.Push(Breaking, heading + " is no longer a " + KindName(item.kind));
    } else {
      var covered := Subset(ourConfig, theirConfig);
      if !covered {
        var simplified := Simplify(theirConfig);  // their_config.simplify()
        r.Push(Breaking, heading + " has been narrowed:\n  Was: " + Render(ourConfig) + "\n  Now: " + Render(simplified));
      }
    }
  }

  /** `find_item_l`: read the old item's `#[cfg]`, scan the new items, push the verdict. */
  method FindItem(r: Report, item: Item, cands: seq<Item>) returns (kids: seq<Module>)
    modifies r
    ensures r.items == old(r.items) + FindItemSpec(item, cands).pushed
    ensures kids == FindItemSpec(item, cands).kids
  {
    ghost var start := r.items;
    ghost var ours := ConfigOf(item.attrs);
    var ourConfig := New(r, item.attrs);
    ghost var s := ScanUpTo(ourConfig, item, cands, |cands|);
    var anyFound, pubFound, kindFound, theirConfig;
    anyFound, pubFound, kindFound, theirConfig, kids := ScanCandidates(r, ourConfig, item, cands);
    AppendAssoc(start, ours.errors, s.pushed);
    ghost var v := Verdict(item, ourConfig, s.anyFound, s.pubFound, s.kindFound, s.their);
    PushVerdict(r, item, ourConfig, anyFound, pubFound, kindFound, theirConfig);
    AppendAssoc(start, ours.errors + s.pushed, v);
  }

  // ---------------------------------------------------------------------------------------
  // `compare_mods` and `compare_crates`

  /** The descriptive name of an unhandled kind. */
  function Descr(k: ItemKind): string
  {
    match k
    case AlwaysPublicItem(_, descr) => descr
    case OtherItem(descr) => descr
    case _ => ""
  }

  /** What the `fn` arm pushes before its lookup: an error when variadic, then three debug dumps. */
  function FnPrelude(name: string, k: ItemKind): (p: seq<ReportItem>)
    requires k.FnItem?
    ensures |p| == if k.variadic then 4 else 3
    ensures forall i | (if k.variadic then 1 else 0) <= i < |p| :: p[i].severity == Debug
    ensures k.variadic ==> p[0] == ReportItem(Error, "non-foreign fn " + name + " is variadic")
  {
    (if k.variadic then [ReportItem(Error, "non-foreign fn " + name + " is variadic")] else [])
    + [ReportItem(Debug, "decl = " + k.decl), ReportItem(Debug, "generics = " + k.generics),
       ReportItem(Debug, UnsafetyName(k.unsafety) + " " + ConstnessName(k.constness) + " " + k.abi)]
  }

  /** The `fn` arm of `CompareItemSpec`. */
  lemma FnArm(item: Item, cands: seq<Item>)
    requires IsPublic(item) && item.kind.FnItem?
    ensures CompareItemSpec(item, cands) ==
      ItemResult(FnPrelude(item.name, item.kind) + FindItemSpec(item, cands).pushed, FindItemSpec(item, cands).kids)
  {
  }

  /** What `compare_mods` does for one old item: nothing when private, a note for unhandled kinds. */
  ghost function CompareItemSpec(item: Item, cands: seq<Item>): (c: ItemResult)
    ensures c.kids != [] ==> item.kind.ModItem?
    ensures !IsPublic(item) ==> c == ItemResult([], [])
  {
    if !IsPublic(item) then ItemResult([], [])
    else
      match item.kind
      case ModItem(_) => FindItemSpec(item, cands)
      case ConstItem(_) => FindItemSpec(item, cands)
      case StaticItem(_, _) => FindItemSpec(item, cands)
      case FnItem(variadic, unsafety, constness, abi, decl, generics) =>
        var f := FindItemSpec(item, cands);
        ItemResult(FnPrelude(item.name, item.kind) + f.pushed, f.kids)
      case _ => ItemResult([ReportItem(Note, "Item \"" + item.name + "\" has unhandled kind: " + Descr(item.kind))], [])
  }

  /**
   * The per-kind outcomes for one public old item: an unhandled kind gives exactly one Note and
   * no lookup; a variadic fn an Error before its debug output and its lookup; a mod, const or
   * static only its lookup.
   */
  lemma CompareItemCases(item: Item, cands: seq<Item>)
    requires IsPublic(item)
    ensures (item.kind.AlwaysPublicItem? || item.kind.OtherItem?) ==>
      CompareItemSpec(item, cands) == ItemResult([ReportItem(Note, "Item \"" + item.name + "\" has unhandled kind: " + Descr(item.kind))], [])
    ensures item.kind.FnItem? && item.kind.variadic ==>
      CompareItemSpec(item, cands).pushed[0] == ReportItem(Error, "non-foreign fn " + item.name + " is variadic")
      && CompareItemSpec(item, cands).pushed[4..] == FindItemSpec(item, cands).pushed
    ensures item.kind.FnItem? && !item.kind.variadic ==>
      |CompareItemSpec(item, cands).pushed| >= 3
      && (forall i | 0 <= i < 3 :: CompareItemSpec(item, cands).pushed[i].severity == Debug)
      && CompareItemSpec(item, cands).pushed[3..] == FindItemSpec(item, cands).pushed
    ensures (item.kind.ModItem? || item.kind.ConstItem? || item.kind.StaticItem?) ==>
      CompareItemSpec(item, cands) == FindItemSpec(item, cands)
  {
  }

  /** An entry of `child_mods`: the index of the old module item, its name, and a matching new module. */
  datatype ChildPair = ChildPair(index: nat, name: string, newModule: Module)

  ghost predicate ChildrenOf(oldMod: Module, children: seq<ChildPair>)
  {
    forall k | 0 <= k < |children| ::
      children[k].index < |oldMod.items| && oldMod.items[children[k].index].kind.ModItem?
  }

  function Pairs(index: nat, name: string, kids: seq<Module>): (p: seq<ChildPair>)
    ensures |p| == |kids|
    ensures forall k | 0 <= k < |p| :: p[k] == ChildPair(index, name, kids[k])
  {
    seq(|kids|, k requires 0 <= k < |kids| => ChildPair(index, name, kids[k]))
  }

  /** What each old item of `oldMod` gives, in order. */
  ghost predicate OutcomesOf(oldMod: Module, newMod: Module, results: seq<ItemResult>)
  {
    && |results| == |oldMod.items|
    && forall k {:trigger CompareItemSpec(oldMod.items[k], newMod.items)} | 0 <= k < |results| ::
         results[k] == CompareItemSpec(oldMod.items[k], newMod.items)
  }

  /** Only module items record children. */
  ghost predicate KidsAreMods(oldMod: Module, results: seq<ItemResult>)
  {
    forall k | 0 <= k < |results| && k < |oldMod.items| :: results[k].kids != [] ==> oldMod.items[k].kind.ModItem?
  }

  ghost function Outcomes(oldMod: Module, newMod: Module): (results: seq<ItemResult>)
    ensures OutcomesOf(oldMod, newMod, results)
    ensures KidsAreMods(oldMod, results)
  {
    seq(|oldMod.items|, k requires 0 <= k < |oldMod.items| => CompareItemSpec(oldMod.items[k], newMod.items))
  }

  /** The item loop of `compare_mods` over the first `n` old items, given what each of them gives. */
  datatype Phase = Phase(pushed: seq<ReportItem>, children: seq<ChildPair>)

  ghost function PhaseOf(oldMod: Module, results: seq<ItemResult>, n: nat): (p: Phase)
    requires n <= |results| == |oldMod.items| && KidsAreMods(oldMod, results)
    ensures ChildrenOf(oldMod, p.children)
    ensures forall k | 0 <= k < |p.children| :: p.children[k].index < n
  {
    if n == 0 then Phase([], [])
    else
      var prev := PhaseOf(oldMod, results, n - 1);
      Phase(prev.pushed + results[n - 1].pushed, prev.children + Pairs(n - 1, oldMod.items[n - 1].name, results[n - 1].kids))
  }

  /** What `compare_mods` pushes: the item loop, then each child under its "Inside mod" note. */
  ghost function ModsSpec(oldMod: Module, newMod: Module): seq<ReportItem>
    decreases oldMod, 1
  {
    var phase := PhaseOf(oldMod, Outcomes(oldMod, newMod), |oldMod.items|);
    phase.pushed + KidsSpec(oldMod, phase.children, 0)
  }

  ghost function KidsSpec(oldMod: Module, children: seq<ChildPair>, j: nat): seq<ReportItem>
    requires ChildrenOf(oldMod, children)
    decreases oldMod, 0, |children| - j
  {
    if j >= |children| then []
    else
      var child := children[j];
      assert oldMod.items[child.index] in oldMod.items;
      [ReportItem(Note, "Inside mod " + child.name)]
      + ModsSpec(oldMod.items[child.index].kind.body, child.newModule)
      + KidsSpec(oldMod, children, j + 1)
  }

  /** Private old items contribute nothing to the report. */
  lemma PrivateItemsIgnored(oldMod: Module, newMod: Module, n: nat)
    requires n < |oldMod.items| && !IsPublic(oldMod.items[n])
    ensures var results := Outcomes(oldMod, newMod);
      PhaseOf(oldMod, results, n + 1) == PhaseOf(oldMod, results, n)
  {
    var results := Outcomes(oldMod, newMod);
    assert results[n] == CompareItemSpec(oldMod.items[n], newMod.items);
  }

  lemma KidsStep(oldMod: Module, children: seq<ChildPair>, j: nat)
    requires ChildrenOf(oldMod, children) && j < |children|
    ensures oldMod.items[children[j].index] in oldMod.items
    ensures KidsSpec(oldMod, children, j) ==
      [ReportItem(Note, "Inside mod " + children[j].name)]
      + ModsSpec(oldMod.items[children[j].index].kind.body, children[j].newModule)
      + KidsSpec(oldMod, children, j + 1)
  {
  }

  /** The body of the item loop of `compare_mods` for one old item. */
  method CompareItem(r: Report, item: Item, newItems: seq<Item>) returns (kids: seq<Module>)
    modifies r
    ensures r.items == old(r.items) + CompareItemSpec(item, newItems).pushed
    ensures kids == CompareItemSpec(item, newItems).kids
  {
    kids := [];
    if !IsPublic(item) {
      return;
    }
    match item.kind {
      case ModItem(_) =>
        kids := FindItem(r, item, newItems);
      case ConstItem(_) =>
        kids := FindItem(r, item, newItems);
      case StaticItem(_, _) =>
        kids := FindItem(r, item, newItems);
      case FnItem(_, _, _, _, _, _) =>
        kids := CompareFn(r, item, newItems);
      case AlwaysPublicItem(_, descr) =>
        r.Push(Note, "Item \"" + item.name + "\" has unhandled kind: " + descr);
      case OtherItem(descr) =>
        r.Push(Note, "Item \"" + item.name + "\" has unhandled kind: " + descr);
    }
  }

  /** The `fn` arm of the item loop: the variadic error, the debug output, then the lookup. */
  method CompareFn(r: Report, item: Item, newItems: seq<Item>) returns (kids: seq<Module>)
    requires IsPublic(item) && item.kind.FnItem?
    modifies r
    ensures r.items == old(r.items) + CompareItemSpec(item, newItems).pushed
    ensures kids == CompareItemSpec(item, newItems).kids
  {
    var k := item.kind;
    ghost var start := r.items;
    ghost var prelude := FnPrelude(item.name, k);
    if k.variadic {
      r.Push(Error, "non-foreign fn " + item.name + " is variadic");
    }
    r.Push(Debug, "decl = " + k.decl);
    r.Push(Debug, "generics = " + k.generics);
    r.Push(Debug, UnsafetyName(k.unsafety) + " " + ConstnessName(k.constness) + " " + k.abi);
    assert r.items == start + prelude;
    kids := FindItem(r, item, newItems);
    FnArm(item, newItems);
    AppendAssoc(start, prelude, FindItemSpec(item, newItems).pushed);
  }

  /** The item loop of `compare_mods`, which records the child modules to visit afterwards. */
  method CompareItems(r: Report, oldMod: Module, newMod: Module, ghost results: seq<ItemResult>)
    returns (childMods: seq<ChildPair>)
    requires OutcomesOf(oldMod, newMod, results) && KidsAreMods(oldMod, results)
    modifies r
    ensures r.items == old(r.items) + PhaseOf(oldMod, results, |oldMod.items|).pushed
    ensures childMods == PhaseOf(oldMod, results, |oldMod.items|).children
  {
    ghost var start := r.items;
    childMods := [];
    for i := 0 to |oldMod.items|
      invariant r.items == start + PhaseOf(oldMod, results, i).pushed
      invariant childMods == PhaseOf(oldMod, results, i).children
    {
      ghost var prev := PhaseOf(oldMod, results, i).pushed;
      var kids := CompareAt(r, oldMod, newMod, results, i);
      AppendAssoc(start, prev, results[i].pushed);
      childMods := childMods + Pairs(i, oldMod.items[i].name, kids);
    }
  }

  /** One round of the item loop, on the old item at index `i`. */
  method CompareAt(r: Report, oldMod: Module, newMod: Module, ghost results: seq<ItemResult>, i: nat)
    returns (kids: seq<Module>)
    requires OutcomesOf(oldMod, newMod, results) && i < |oldMod.items|
    modifies r
    ensures r.items == old(r.items) + results[i].pushed
    ensures kids == results[i].kids
  {
    assert results[i] == CompareItemSpec(oldMod.items[i], newMod.items);
    kids := CompareItem(r, oldMod.items[i], newMod.items);
  }

  /** `compare_mods`: the item loop, then the children it recorded. */
  method CompareMods(r: Report, oldMod: Module, newMod: Module)
    modifies r
    ensures r.items == old(r.items) + ModsSpec(oldMod, newMod)
    decreases oldMod, 1
  {
    ghost var start := r.items;
    ghost var results := Outcomes(oldMod, newMod);
    var childMods := CompareItems(r, oldMod, newMod, results);
    CompareChildren(r, oldMod, childMods);
    AppendAssoc(start, PhaseOf(oldMod, results, |oldMod.items|).pushed, KidsSpec(oldMod, childMods, 0));
  }

  /** The second loop of `compare_mods`: each recorded child under an "Inside mod" Note. */
  method CompareChildren(r: Report, oldMod: Module, childMods: seq<ChildPair>)
    requires ChildrenOf(oldMod, childMods)
    modifies r
    ensures r.items == old(r.items) + KidsSpec(oldMod, childMods, 0)
    decreases oldMod, 0
  {
    ghost var target := r.items + KidsSpec(oldMod, childMods, 0);
    for j := 0 to |childMods|
      invariant r.items + KidsSpec(oldMod, childMods, j) == target
    {
      var child := childMods[j];
      KidsStep(oldMod, childMods, j);
      ghost var before := r.items;
      ghost var note := [ReportItem(Note, "Inside mod " + child.name)];
      ghost var inner := ModsSpec(oldMod.items[child.index].kind.body, child.newModule);
      ghost var rest := KidsSpec(oldMod, childMods, j + 1);
      r.Push(Note, "Inside mod " + child.name);
      CompareMods(r, oldMod.items[child.index].kind.body, child.newModule);
      assert r.items == before + note + inner;
      AppendAssoc(before, note, inner);
      AppendAssoc(before, note + inner, rest);
      assert KidsSpec(oldMod, childMods, j) == note + inner + rest;
    }
    assert KidsSpec(oldMod, childMods, |childMods|) == [];
  }

  /** What `compare_crates` pushes: the attribute errors, a coverage check, then the root modules. */
  ghost function CratesSpec(oldCrate: Crate, newCrate: Crate): seq<ReportItem>
  {
    var o := ConfigOf(oldCrate.attrs);
    var n := ConfigOf(newCrate.attrs);
    o.errors + n.errors
    + (if Entails(o.config, n.config) then [] else [ReportItem(Breaking, "New crate reduces #[cfg] coverage")])
    + ModsSpec(oldCrate.root, newCrate.root)
  }

  /** `compare_crates`. Exported macros are not compared. */
  method CompareCrates(r: Report, oldCrate: Crate, newCrate: Crate)
    modifies r
    ensures r.items == old(r.items) + CratesSpec(oldCrate, newCrate)
  {
    ghost var start := r.items;
    ghost var o := ConfigOf(oldCrate.attrs);
    ghost var n := ConfigOf(newCrate.attrs);
    ghost var narrowed := if Entails(o.config, n.config) then [] else [ReportItem(Breaking, "New crate reduces #[cfg] coverage")];
    var oldConfig := New(r, oldCrate.attrs);
    var newConfig := New(r, newCrate.attrs);
    var covered := Subset(oldConfig, newConfig);
    if !covered {
      r.Push(Breaking, "New crate reduces #[cfg] coverage");
    }
    assert r.items == start + o.errors + n.errors + narrowed;
    ghost var mid := r.items;
    CompareMods(r, oldCrate.root, newCrate.root);
    assert r.items == mid + ModsSpec(oldCrate.root, newCrate.root);
    AppendAssoc(start, o.errors, n.errors);
    AppendAssoc(start, o.errors + n.errors, narrowed);
    AppendAssoc(start, o.errors + n.errors + narrowed, ModsSpec(oldCrate.root, newCrate.root));
  }

  // ---------------------------------------------------------------------------------------
  // `use_defines_name`

  /** An item of a `use a::b::{..}` list: a name or `self`, either possibly renamed. */
  datatype PathListItem = IdentItem(name: string, rename: Option<string>) | SelfItem(rename: Option<string>)

  /** `use a::b as c;`, `use a::b::*;` and `use a::b::{..};`. */
  datatype ViewPath =
    | ViewPathSimple(ident: string)
    | ViewPathGlob(globSegments: seq<string>)
    | ViewPathList(segments: seq<string>, listItems: seq<PathListItem>)

  /** The name a list item brings into scope: its rename, else its name, else the path's last segment. */
  function ListItemDefines(item: PathListItem, segments: seq<string>, name: string): bool
  {
    match item
    case IdentItem(n, rename) => if rename.Some? then rename.value == name else n == name
    case SelfItem(rename) =>
      if rename.Some? then rename.value == name else |segments| > 0 && segments[|segments| - 1] == name
  }

  /** Whether the `use` brings `name` into scope; a glob is never taken to. */
  function UseDefines(vp: ViewPath, name: string): bool
  {
    match vp
    case ViewPathSimple(ident) => ident == name
    case ViewPathGlob(_) => false
    case ViewPathList(segments, items) => exists i | 0 <= i < |items| :: ListItemDefines(items[i], segments, name)
  }

  /** A renamed import defines its new name and no longer the old one; `self` defines the module's name. */
  lemma UseDefinesRenames(segments: seq<string>, n: string, alias: string)
    requires n != alias
    ensures UseDefines(ViewPathList(segments, [IdentItem(n, Some(alias))]), alias)
    ensures !UseDefines(ViewPathList(segments, [IdentItem(n, Some(alias))]), n)
    ensures |segments| > 0 ==> UseDefines(ViewPathList(segments, [SelfItem(None)]), segments[|segments| - 1])
    ensures !UseDefines(ViewPathList([], [SelfItem(None)]), n)
  {
    var renamed := [IdentItem(n, Some(alias))];
    assert ListItemDefines(renamed[0], segments, alias);
    if |segments| > 0 {
      var self := [SelfItem(None)];
      assert ListItemDefines(self[0], segments, segments[|segments| - 1]);
    }
  }

  /** `use_defines_name`: a glob pushes one Warning and defines nothing. */
  method UseDefinesName(r: Report, vp: ViewPath, name: string) returns (defines: bool)
    modifies r
    ensures defines == UseDefines(vp, name)
    ensures vp.ViewPathGlob? ==> !defines && r.items == old(r.items) + [ReportItem(Warning, "Glob imports are not yet handled")]
    ensures !vp.ViewPathGlob? ==> r.items == old(r.items)
  {
    match vp
    case ViewPathGlob(_) =>
      r.Push(Warning, "Glob imports are not yet handled");
      defines := false;
    case _ =>
      defines := UseDefines(vp, name);
  }
}
