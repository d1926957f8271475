/**
 The edit the convert command makes to `body.json`: walk the top-level
 `Components` array in order, and in the first component whose `$type` is
 the string "AppearanceComponent" replace the array `GasGiant.Colors` with
 the sampled bands. Every `expect` on the way is a distinct error; so is
 reaching the end of the array without a match.
 */
module BodyPatch {
  import opened Outcomes
  import opened Json

  const AppearanceType: string := "AppearanceComponent"

  /** Why the patch gave up. All but the last are `expect` panics in the
      convert command; `AppearanceNotFound` is its `bail!`. */
  datatype PatchError =
    | RootNotObject           // the document is not an object
    | ComponentsMissing       // no `Components` member
    | ComponentsNotArray      // `Components` is not an array
    | TypeMissing(index: nat) // component `index` has no `$type`
    | NotAGasGiant            // the matched component has no `GasGiant`
    | GasGiantNotObject       // `GasGiant` is not an object
    | ColorsMissing           // `GasGiant` has no `Colors`
    | ColorsNotArray          // `Colors` is not an array
    | AppearanceNotFound      // no component matched

  /** `component.get("$type")` finds something (it finds nothing in a
      non-object). */
  predicate HasType(c: Json)
  {
    Get(c, "$type").Some?
  }

  /** `$type` is the JSON string "AppearanceComponent"; a `$type` of any
      other kind (a number, an array, ...) does not match. */
  predicate IsAppearance(c: Json)
  {
    Get(c, "$type") == Some(Str(AppearanceType))
  }

  /** Component `k` is the one the loop stops at and rewrites: it matches, and
      every component before it has a `$type` that does not. */
  predicate MatchAt(comps: seq<Json>, k: int)
  {
    0 <= k < |comps| && IsAppearance(comps[k]) &&
    forall j :: 0 <= j < k ==> HasType(comps[j]) && !IsAppearance(comps[j])
  }

  /** The items of `GasGiant.Colors`, when the component has that shape. */
  function ColorsOf(c: Json): Option<seq<Json>>
  {
    match Get(c, "GasGiant")
    case Some(Obj(gas)) =>
      (match Lookup(gas, "Colors")
       case Some(Arr(items)) => Some(items)
       case _ => None)
    case _ => None
  }

  /** `c` and `d` are objects with the same member names and the same
      members, except that `GasGiant` may differ, and then only in `Colors`. */
  ghost predicate OnlyColorsDiffer(c: Json, d: Json)
  {
    c.Obj? && d.Obj? && AgreeExcept(c.fields, d.fields, "GasGiant") &&
    Get(c, "GasGiant").Some? && Get(d, "GasGiant").Some? &&
    var g, h := Get(c, "GasGiant").value, Get(d, "GasGiant").value;
    g.Obj? && h.Obj? && AgreeExcept(g.fields, h.fields, "Colors")
  }

  /** Rewrite one matched component: clear `GasGiant.Colors` and push the
      bands. Each missing or mistyped step of `GasGiant.Colors` fails with its
      own error; it succeeds exactly when the component has that shape, and
      then changes nothing but that array. */
  function SetColors(c: Json, colors: seq<Json>): (r: Result<Json, PatchError>)
    ensures Get(c, "GasGiant").None? ==> r == Err(NotAGasGiant)
    ensures Get(c, "GasGiant").Some? && !Get(c, "GasGiant").value.Obj? ==> r == Err(GasGiantNotObject)
    ensures Get(c, "GasGiant").Some? && Get(c, "GasGiant").value.Obj? ==>
      var colorsMember := Lookup(Get(c, "GasGiant").value.fields, "Colors");
      (colorsMember.None? ==> r == Err(ColorsMissing)) &&
      (colorsMember.Some? && !colorsMember.value.Arr? ==> r == Err(ColorsNotArray))
    ensures r.Ok? <==> ColorsOf(c).Some?
    ensures r.Ok? ==> ColorsOf(r.value) == Some(colors) && OnlyColorsDiffer(c, r.value)
  {
    match Get(c, "GasGiant")
    case None => Err(NotAGasGiant)
    case Some(g) =>
      if !g.Obj? then Err(GasGiantNotObject)
      else
        match Lookup(g.fields, "Colors")
        case None => Err(ColorsMissing)
        case Some(cs) =>
          if !cs.Arr? then Err(ColorsNotArray)
          else
            Ok(Obj(Update(c.fields, "GasGiant", Obj(Update(g.fields, "Colors", Arr(colors))))))
  }

  /** The `for component in components` loop, from component `i` on. */
  function PatchFrom(comps: seq<Json>, i: nat, colors: seq<Json>): (r: Result<seq<Json>, PatchError>)
    requires i <= |comps|
    ensures r.Ok? ==> |r.value| == |comps|
    decreases |comps| - i
  {
    if i == |comps| then Err(AppearanceNotFound)
    else if !HasType(comps[i]) then Err(TypeMissing(i))
    else if IsAppearance(comps[i]) then
      match SetColors(comps[i], colors)
      case Ok(c) => Ok(comps[i := c])
      case Err(e) => Err(e)
    else PatchFrom(comps, i + 1, colors)
  }

  /** Where the loop stops in `comps` from position `i` on: the first
      "AppearanceComponent", unless a component without `$type` or the end
      of the array comes first. */
  function FindFrom(comps: seq<Json>, i: nat): (r: Option<nat>)
    requires i <= |comps|
    requires forall j :: 0 <= j < i ==> HasType(comps[j]) && !IsAppearance(comps[j])
    ensures r.Some? ==> MatchAt(comps, r.value)
    ensures r.None? ==> forall k :: !MatchAt(comps, k)
    decreases |comps| - i
  {
    if i == |comps| then None
    else if !HasType(comps[i]) then None
    else if IsAppearance(comps[i]) then Some(i)
    else FindFrom(comps, i + 1)
  }

  /** The whole loop over `Components`: it succeeds exactly when it stops
      at a component with a colour array to rewrite, and then that
      component is replaced by its rewrite and no other component changes. */
  function PatchComponents(comps: seq<Json>, colors: seq<Json>): (r: Result<seq<Json>, PatchError>)
    ensures r.Ok? ==> |r.value| == |comps|
    ensures r.Ok? <==> FindFrom(comps, 0).Some? && ColorsOf(comps[FindFrom(comps, 0).value]).Some?
    ensures r.Ok? ==> var k := FindFrom(comps, 0).value;
      r.value == comps[k := SetColors(comps[k], colors).value]
  {
    match FindFrom(comps, 0)
    case None =>
      NoStopFails(comps, 0, colors);
      PatchFrom(comps, 0, colors)
    case Some(k) =>
      SkipNonMatching(comps, 0, k, colors);
      PatchFrom(comps, 0, colors)
  }

  /** The loop runs past components that carry a non-matching `$type`. */
  lemma {:induction false} SkipNonMatching(comps: seq<Json>, i: nat, k: nat, colors: seq<Json>)
    requires i <= k <= |comps|
    requires forall j :: i <= j < k ==> HasType(comps[j]) && !IsAppearance(comps[j])
    ensures PatchFrom(comps, i, colors) == PatchFrom(comps, k, colors)
    decreases k - i
  {
    if i < k {
      assert HasType(comps[i]) && !IsAppearance(comps[i]);
      assert PatchFrom(comps, i, colors) == PatchFrom(comps, i + 1, colors);
      SkipNonMatching(comps, i + 1, k, colors);
    }
  }

  /** Where the loop finds no stop, it fails. */
  lemma {:induction false} NoStopFails(comps: seq<Json>, i: nat, colors: seq<Json>)
    requires i <= |comps|
    requires forall j :: 0 <= j < i ==> HasType(comps[j]) && !IsAppearance(comps[j])
    requires FindFrom(comps, i).None?
    ensures PatchFrom(comps, i, colors).Err?
    decreases |comps| - i
  {
    if i < |comps| && HasType(comps[i]) && !IsAppearance(comps[i]) {
      NoStopFails(comps, i + 1, colors);
    }
  }

  /** Only the first match is rewritten: when component `k` is where the loop
      stops, the outcome is `SetColors` of that component, every other
      component (later "AppearanceComponent"s included) is kept as it was. */
  lemma FirstMatchRewritten(comps: seq<Json>, k: nat, colors: seq<Json>)
    requires MatchAt(comps, k)
    ensures PatchComponents(comps, colors).Ok? <==> ColorsOf(comps[k]).Some?
    ensures PatchComponents(comps, colors).Ok? ==>
      PatchComponents(comps, colors).value == comps[k := SetColors(comps[k], colors).value]
    ensures PatchComponents(comps, colors).Err? ==>
      PatchComponents(comps, colors).error == SetColors(comps[k], colors).error
  {
    SkipNonMatching(comps, 0, k, colors);
  }

  /** A component before any match that has no `$type` aborts the whole
      patch, whatever follows it. */
  lemma UntypedBeforeMatchFails(comps: seq<Json>, j: nat, colors: seq<Json>)
    requires j < |comps| && !HasType(comps[j])
    requires forall i :: 0 <= i < j ==> HasType(comps[i]) && !IsAppearance(comps[i])
    ensures PatchComponents(comps, colors) == Err(TypeMissing(j))
  {
    SkipNonMatching(comps, 0, j, colors);
  }

  /** With no "AppearanceComponent" at all the patch fails; it reports the
      missing component exactly when every component has a `$type`. */
  lemma NoAppearanceFails(comps: seq<Json>, colors: seq<Json>)
    requires forall i :: 0 <= i < |comps| ==> !IsAppearance(comps[i])
    ensures PatchComponents(comps, colors).Err?
    ensures PatchComponents(comps, colors) == Err(AppearanceNotFound) <==>
      forall i :: 0 <= i < |comps| ==> HasType(comps[i])
  {
    NoAppearanceFrom(comps, 0, colors);
  }

  lemma {:induction false} NoAppearanceFrom(comps: seq<Json>, i: nat, colors: seq<Json>)
    requires i <= |comps|
    requires forall j :: i <= j < |comps| ==> !IsAppearance(comps[j])
    ensures PatchFrom(comps, i, colors).Err?
    ensures PatchFrom(comps, i, colors) == Err(AppearanceNotFound) <==>
      forall j :: i <= j < |comps| ==> HasType(comps[j])
    decreases |comps| - i
  {
    if i < |comps| && HasType(comps[i]) {
      NoAppearanceFrom(comps, i + 1, colors);
    }
  }

  /** The `Components` array of a document, when the document has one. */
  function Components(doc: Json): Option<seq<Json>>
  {
    match Get(doc, "Components")
    case Some(Arr(items)) => Some(items)
    case _ => None
  }

  /** The colour array the convert command would rewrite, read without
      rewriting it. */
  function AppearanceColors(doc: Json): Option<seq<Json>>
  {
    match Components(doc)
    case None => None
    case Some(comps) => AppearanceColorsIn(comps)
  }

  /** The colour array of the component the loop stops at, if any. */
  function AppearanceColorsIn(comps: seq<Json>): Option<seq<Json>>
  {
    match FindFrom(comps, 0)
    case None => None
    case Some(k) => ColorsOf(comps[k])
  }

  /** After a successful loop the loop would stop at the same component
      again, and that component's colour array now holds the bands. */
  lemma PatchKeepsStop(comps: seq<Json>, colors: seq<Json>)
    ensures PatchComponents(comps, colors).Ok? ==>
      var comps', k := PatchComponents(comps, colors).value, FindFrom(comps, 0).value;
      FindFrom(comps', 0) == Some(k) && ColorsOf(comps'[k]) == Some(colors)
  {
    if PatchComponents(comps, colors).Ok? {
      var comps', k := PatchComponents(comps, colors).value, FindFrom(comps, 0).value;
      assert MatchAt(comps', k) by {
        assert Get(comps'[k], "$type") == Get(comps[k], "$type");
      }
      MatchUnique(comps', k, FindFrom(comps', 0).value);
    }
  }

  /** Writing a successfully patched `Components` array back into the root
      object makes the colour array read back as the bands. */
  lemma PatchedReadsBack(fields: Fields, comps: seq<Json>, colors: seq<Json>)
    ensures Lookup(fields, "Components") == Some(Arr(comps)) && PatchComponents(comps, colors).Ok? ==>
      AppearanceColors(Obj(Update(fields, "Components", Arr(PatchComponents(comps, colors).value)))) ==
        Some(colors)
  {
    if Lookup(fields, "Components") == Some(Arr(comps)) && PatchComponents(comps, colors).Ok? {
      var items := PatchComponents(comps, colors).value;
      var doc' := Obj(Update(fields, "Components", Arr(items)));
      assert Components(doc') == Some(items);
      PatchKeepsStop(comps, colors);
    }
  }

  /** src/main.rs:61-103, the convert command's edit of the body: the
      document with the bands in place, or the reason it could not be
      patched. Each of the three root `expect`s fails with its own error and
      the loop's failure is passed on; it succeeds exactly when the document
      has a colour array to rewrite, and reading that array back afterwards
      yields the bands. */
  function PatchBody(doc: Json, colors: seq<Json>): (r: Result<Json, PatchError>)
    ensures !doc.Obj? ==> r == Err(RootNotObject)
    ensures doc.Obj? && Get(doc, "Components").None? ==> r == Err(ComponentsMissing)
    ensures Get(doc, "Components").Some? && !Get(doc, "Components").value.Arr? ==>
      r == Err(ComponentsNotArray)
    ensures Components(doc).Some? && PatchComponents(Components(doc).value, colors).Err? ==>
      r == Err(PatchComponents(Components(doc).value, colors).error)
    ensures r.Ok? <==> AppearanceColors(doc).Some?
    ensures r.Ok? ==> AppearanceColors(r.value) == Some(colors)
  {
    if !doc.Obj? then Err(RootNotObject)
    else
      match Lookup(doc.fields, "Components")
      case None => Err(ComponentsMissing)
      case Some(cs) =>
        if !cs.Arr? then Err(ComponentsNotArray)
        else
          assert AppearanceColors(doc) == AppearanceColorsIn(cs.items);
          match PatchComponents(cs.items, colors)
          case Err(e) => Err(e)
          case Ok(items) =>
            PatchedReadsBack(doc.fields, cs.items, colors);
            Ok(Obj(Update(doc.fields, "Components", Arr(items))))
  }

  /** At most one component is where the loop stops. */
  lemma MatchUnique(comps: seq<Json>, k: int, k': int)
    requires MatchAt(comps, k) && MatchAt(comps, k')
    ensures k == k'
  {
  }

  /** Nothing but the matched colour array changes: the document keeps its
      member names and every member other than `Components`; `Components`
      keeps its length and every component except the first match, and that
      one differs only in `GasGiant.Colors`. */
  lemma PatchChangesOnlyColors(doc: Json, colors: seq<Json>)
    ensures PatchBody(doc, colors).Ok? ==> var r := PatchBody(doc, colors).value;
      doc.Obj? && r.Obj? && AgreeExcept(doc.fields, r.fields, "Components") &&
      Components(doc).Some? && Components(r).Some? &&
      var comps, comps' := Components(doc).value, Components(r).value;
      |comps'| == |comps| &&
      exists k :: MatchAt(comps, k) && OnlyColorsDiffer(comps[k], comps'[k]) &&
        forall j :: 0 <= j < |comps| && j != k ==> comps'[j] == comps[j]
  {
  }

  /** Rewriting a rewritten component: the last bands win. */
  lemma SetColorsTwice(c: Json, a: seq<Json>, b: seq<Json>)
    ensures SetColors(c, a).Ok? ==> SetColors(SetColors(c, a).value, b) == SetColors(c, b)
  {
    if SetColors(c, a).Ok? {
      var g := Get(c, "GasGiant").value;
      var ga := Obj(Update(g.fields, "Colors", Arr(a)));
      var ca := SetColors(c, a).value;
      assert Get(ca, "GasGiant") == Some(ga);
      UpdateTwice(g.fields, "Colors", Arr(a), Arr(b));
      UpdateTwice(c.fields, "GasGiant", ga, Obj(Update(g.fields, "Colors", Arr(b))));
    }
  }

  /** Running the loop over an array it already patched: the last bands win. */
  lemma PatchComponentsTwice(comps: seq<Json>, a: seq<Json>, b: seq<Json>)
    ensures PatchComponents(comps, a).Ok? ==>
      PatchComponents(PatchComponents(comps, a).value, b) == PatchComponents(comps, b)
  {
    if PatchComponents(comps, a).Ok? {
      var k := FindFrom(comps, 0).value;
      var c := comps[k];
      var comps' := comps[k := SetColors(c, a).value];
      FirstMatchRewritten(comps, k, a);
      FirstMatchRewritten(comps, k, b);
      assert MatchAt(comps', k) by {
        assert Get(comps'[k], "$type") == Get(c, "$type");
      }
      FirstMatchRewritten(comps', k, b);
      SetColorsTwice(c, a, b);
      assert comps'[k := SetColors(comps'[k], b).value] == comps[k := SetColors(c, b).value];
    }
  }

  /** Patching an already patched document: the last bands win, and patching
      twice with the same bands is the same as patching once. */
  lemma PatchLastWins(doc: Json, a: seq<Json>, b: seq<Json>)
    ensures PatchBody(doc, a).Ok? ==> PatchBody(PatchBody(doc, a).value, b) == PatchBody(doc, b)
  {
    if PatchBody(doc, a).Ok? {
      var comps := Components(doc).value;
      var comps' := PatchComponents(comps, a).value;
      var doc' := PatchBody(doc, a).value;
      assert doc' == Obj(Update(doc.fields, "Components", Arr(comps')));
      assert Components(doc') == Some(comps');
      PatchComponentsTwice(comps, a, b);
      if PatchComponents(comps, b).Ok? {
        UpdateTwice(doc.fields, "Components", Arr(comps'), Arr(PatchComponents(comps, b).value));
      }
    }
  }
}
