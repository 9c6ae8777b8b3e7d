/** Numeric image versions: how they are ranked, which catalogs are accepted, and which release a selector names. */
module Versions {
  import opened Wrappers
  import opened Texts
  import opened Decimals

  const MAX_COMPONENT: nat := 0x1_0000_0000_0000_0000

  function Components(parts: seq<string>): Option<seq<nat>>
  {
    if parts == [] then Some([])
    else if parts[0] == "" || !Digits(parts[0]) || Decimal(parts[0]) >= MAX_COMPONENT then None
    else match Components(parts[1..])
      case None => None
      case Some(rest) => Some([Decimal(parts[0])] + rest)
  }

  /** The components of a dot-separated numeric version, each within 64 bits. */
  function Parts(value: string): (parts: Option<seq<nat>>)
  {
    Components(Split(value, '.'))
  }

  // ---------------------------------------------------------------- comparison

  function At(parts: seq<nat>, i: nat): nat
  {
    if i < |parts| then parts[i] else 0
  }

  /** Component by component; missing components count as zero. */
  function Compare(first: seq<nat>, second: seq<nat>): int
  {
    CompareFrom(first, second, 0)
  }

  function CompareFrom(first: seq<nat>, second: seq<nat>, i: nat): int
    decreases |first| + |second| - i
  {
    if i >= |first| && i >= |second| then 0
    else if At(first, i) < At(second, i) then -1
    else if At(first, i) > At(second, i) then 1
    else CompareFrom(first, second, i + 1)
  }

  method CompareVersions(first: seq<nat>, second: seq<nat>) returns (order: int)
    ensures order == Compare(first, second)
  {
    var length := if |second| > |first| then |second| else |first|;
    for i := 0 to length
      invariant Compare(first, second) == CompareFrom(first, second, i)
    {
      var left := if i < |first| then first[i] else 0;
      var right := if i < |second| then second[i] else 0;
      if left < right {
        return -1;
      }
      if left > right {
        return 1;
      }
    }
    return 0;
  }

  lemma {:induction false} CompareEqual(first: seq<nat>, second: seq<nat>, i: nat)
    ensures CompareFrom(first, second, i) == 0 <==> forall j: nat :: j >= i ==> At(first, j) == At(second, j)
    decreases |first| + |second| - i
  {
    if i < |first| || i < |second| {
      CompareEqual(first, second, i + 1);
    }
  }

  /** The first position where the versions differ decides. */
  lemma {:induction false} FirstDifferenceDecides(first: seq<nat>, second: seq<nat>, i: nat, j: nat)
    requires i <= j && At(first, j) != At(second, j) && forall k: nat :: i <= k < j ==> At(first, k) == At(second, k)
    ensures CompareFrom(first, second, i) == if At(first, j) < At(second, j) then -1 else 1
    decreases j - i
  {
    if i < j {
      FirstDifferenceDecides(first, second, i + 1, j);
    }
  }

  lemma {:induction false} CompareMirrors(first: seq<nat>, second: seq<nat>, i: nat)
    ensures CompareFrom(first, second, i) == -CompareFrom(second, first, i)
    decreases |first| + |second| - i
  {
    if i < |first| || i < |second| {
      CompareMirrors(first, second, i + 1);
    }
  }

  lemma {:induction false} CompareChains(first: seq<nat>, second: seq<nat>, third: seq<nat>, i: nat)
    requires CompareFrom(first, second, i) <= 0 && CompareFrom(second, third, i) <= 0
    ensures CompareFrom(first, third, i) <= 0
    ensures CompareFrom(first, second, i) < 0 || CompareFrom(second, third, i) < 0 ==> CompareFrom(first, third, i) < 0
    decreases |first| + |second| + |third| - i
  {
    if i < |first| || i < |second| || i < |third| {
      if At(first, i) == At(second, i) == At(third, i) {
        CompareChains(first, second, third, i + 1);
      }
    }
  }

  /** Comparison is a total preorder. */
  lemma CompareIsPreorder(first: seq<nat>, second: seq<nat>, third: seq<nat>)
    ensures Compare(first, first) == 0
    ensures Compare(first, second) == -Compare(second, first)
    ensures Compare(first, second) <= 0 && Compare(second, third) <= 0 ==> Compare(first, third) <= 0
    ensures Compare(first, second) < 0 && Compare(second, third) <= 0 ==> Compare(first, third) < 0
    ensures Compare(first, second) <= 0 && Compare(second, third) < 0 ==> Compare(first, third) < 0
  {
    CompareMirrors(first, first, 0);
    CompareMirrors(first, second, 0);
    if Compare(first, second) <= 0 && Compare(second, third) <= 0 {
      CompareChains(first, second, third, 0);
    }
  }

  // ---------------------------------------------------------------- canonical keys

  /** Without trailing zero components, but with at least one component. */
  function Trim(parts: seq<nat>): (trimmed: seq<nat>)
    ensures parts != [] ==> trimmed != []
  {
    if |parts| > 1 && parts[|parts| - 1] == 0 then Trim(parts[..|parts| - 1]) else parts
  }

  function Rendered(parts: seq<nat>): seq<string>
  {
    seq(|parts|, i requires 0 <= i < |parts| => Render(parts[i]))
  }

  function CanonicalKey(parts: seq<nat>): string
  {
    Join(Rendered(Trim(parts)), ".")
  }

  method CanonicalText(parts: seq<nat>) returns (key: string)
    ensures key == CanonicalKey(parts)
  {
    var end := |parts|;
    assert parts[..end] == parts;
    while end > 1 && parts[end - 1] == 0
      invariant 0 <= end <= |parts| && Trim(parts) == Trim(parts[..end])
    {
      assert parts[..end][..end - 1] == parts[..end - 1];
      end := end - 1;
    }
    var rendered: seq<string> := [];
    for i := 0 to end
      invariant rendered == Rendered(parts[..i])
    {
      rendered := rendered + [Render(parts[i])];
    }
    return Join(rendered, ".");
  }

  lemma {:induction false} TrimKeepsValue(parts: seq<nat>)
    ensures forall i: nat :: At(Trim(parts), i) == At(parts, i)
    ensures |Trim(parts)| > 1 ==> Trim(parts)[|Trim(parts)| - 1] != 0
  {
    if |parts| > 1 && parts[|parts| - 1] == 0 {
      TrimKeepsValue(parts[..|parts| - 1]);
    }
  }

  lemma TrimDecides(first: seq<nat>, second: seq<nat>)
    requires first != [] && second != []
    ensures Trim(first) == Trim(second) <==> Compare(first, second) == 0
  {
    var one, two := Trim(first), Trim(second);
    TrimKeepsValue(first);
    TrimKeepsValue(second);
    CompareEqual(first, second, 0);
    if Compare(first, second) == 0 {
      assert forall i: nat :: At(one, i) == At(two, i);
      assert At(one, |one| - 1) == At(two, |one| - 1) && At(one, |two| - 1) == At(two, |two| - 1);
      forall i | 0 <= i < |one|
        ensures one[i] == two[i]
      {
        assert At(one, i) == At(two, i);
      }
    }
  }

  lemma RenderedDecides(first: seq<nat>, second: seq<nat>)
    requires first != [] && second != []
    ensures Join(Rendered(first), ".") == Join(Rendered(second), ".") <==> first == second
  {
    if Join(Rendered(first), ".") == Join(Rendered(second), ".") {
      SplitJoin(Rendered(first), '.');
      SplitJoin(Rendered(second), '.');
      forall i | 0 <= i < |first|
        ensures first[i] == second[i]
      {
        RenderRoundTrip(first[i]);
        RenderRoundTrip(second[i]);
        assert Rendered(first)[i] == Rendered(second)[i];
      }
    }
  }

  /** Canonical keys are equal exactly when versions compare equal. */
  lemma KeysDecideEquality(first: seq<nat>, second: seq<nat>)
    requires first != [] && second != []
    ensures CanonicalKey(first) == CanonicalKey(second) <==> Compare(first, second) == 0
  {
    TrimDecides(first, second);
    RenderedDecides(Trim(first), Trim(second));
  }

  lemma {:induction false} ComponentsLength(parts: seq<string>)
    ensures Components(parts).Some? ==> |Components(parts).value| == |parts|
  {
    if parts != [] {
      ComponentsLength(parts[1..]);
    }
  }

  lemma PartsNonEmpty(value: string)
    ensures Parts(value).Some? ==> Parts(value).value != []
  {
    ComponentsLength(Split(value, '.'));
  }

  // ---------------------------------------------------------------- accepted catalogs

  /** No two version keys of a validated catalog rank identically. */
  predicate Distinguished(versions: set<string>)
  {
    forall first, second :: first in versions && second in versions && first != second ==>
      Parts(first).Some? && Parts(second).Some? ==> CanonicalKey(Parts(first).value) != CanonicalKey(Parts(second).value)
  }

  method ValidateVersions(versions: set<string>) returns (ok: bool)
    ensures ok == Distinguished(versions)
  {
    var ranked: map<string, string> := map[];
    var left := versions;
    while left != {}
      invariant left <= versions && Distinguished(versions - left)
      invariant forall release :: release in versions - left && Parts(release).Some? ==> CanonicalKey(Parts(release).value) in ranked
      invariant forall key :: key in ranked ==>
                  ranked[key] in versions - left && Parts(ranked[key]).Some? && CanonicalKey(Parts(ranked[key]).value) == key
    {
      var release :| release in left;
      if Parts(release).Some? {
        var key := CanonicalText(Parts(release).value);
        if key in ranked {
          return false;
        }
        ranked := ranked[key := release];
      }
      left := left - {release};
    }
    assert versions - {} == versions;
    return true;
  }

  // ---------------------------------------------------------------- selection

  datatype Resolution = Release(name: string) | NotNumeric | Unrankable | NoMatch | Ambiguous(first: string, second: string)

  /** Matching on a component boundary. */
  predicate Matches(version: string, selector: string)
  {
    |selector| < |version| && version[..|selector| + 1] == selector + "."
  }

  function Matching(versions: set<string>, selector: string): set<string>
  {
    set version | version in versions && Matches(version, selector)
  }

  predicate Rankable(names: set<string>)
  {
    forall name :: name in names ==> Parts(name).Some?
  }

  predicate Less(first: string, second: string)
  {
    if second == "" then false
    else if first == "" then true
    else first[0] < second[0] || (first[0] == second[0] && Less(first[1..], second[1..]))
  }

  /** Newer versions first; equal ones by their text. */
  predicate Before(first: string, second: string)
    requires Parts(first).Some? && Parts(second).Some?
  {
    var order := Compare(Parts(first).value, Parts(second).value);
    order > 0 || (order == 0 && Less(first, second))
  }

  lemma {:induction false} LessIsTotal(first: string, second: string)
    ensures first != second ==> Less(first, second) != Less(second, first)
    ensures !Less(first, first)
  {
    if first != "" {
      if second != "" {
        LessIsTotal(first[1..], second[1..]);
        if first[0] == second[0] && first[1..] == second[1..] {
          assert first == [first[0]] + first[1..] && second == [second[0]] + second[1..];
        }
      } else {
        LessIsTotal(first[1..], first[1..]);
      }
    }
  }

  lemma {:induction false} LessIsTransitive(first: string, second: string, third: string)
    requires Less(first, second) && Less(second, third)
    ensures Less(first, third)
  {
    if first != "" && first[0] == second[0] && second[0] == third[0] {
      LessIsTransitive(first[1..], second[1..], third[1..]);
    }
  }

  lemma BeforeIsTotal(first: string, second: string)
    requires Parts(first).Some? && Parts(second).Some?
    ensures first != second ==> Before(first, second) != Before(second, first)
    ensures !Before(first, first)
  {
    CompareIsPreorder(Parts(first).value, Parts(second).value, Parts(first).value);
    LessIsTotal(first, second);
  }

  lemma BeforeIsTransitive(first: string, second: string, third: string)
    requires Parts(first).Some? && Parts(second).Some? && Parts(third).Some?
    requires Before(first, second) && Before(second, third)
    ensures Before(first, third)
  {
    CompareIsPreorder(Parts(first).value, Parts(second).value, Parts(third).value);
    CompareIsPreorder(Parts(third).value, Parts(second).value, Parts(first).value);
    CompareIsPreorder(Parts(first).value, Parts(third).value, Parts(first).value);
    if Less(first, second) && Less(second, third) {
      LessIsTransitive(first, second, third);
    }
  }

  predicate Top(names: set<string>, name: string)
    requires Rankable(names)
  {
    name in names && forall other :: other in names && other != name ==> Before(name, other)
  }

  /** What a selection must return: a function of the set of versions, so no iteration order can reach it. */
  ghost predicate Selects(versions: set<string>, selector: string, result: Resolution)
  {
    var matching := Matching(versions, selector);
    if selector in versions then result == Release(selector)
    else if Parts(selector).None? then result == NotNumeric
    else if !Rankable(matching) then result == Unrankable
    else
      match result
      case NoMatch => matching == {}
      case Release(name) =>
        Top(matching, name)
        && forall other :: other in matching && other != name ==> Compare(Parts(name).value, Parts(other).value) > 0
      case Ambiguous(first, second) =>
        && Top(matching, first) && Top(matching - {first}, second)
        && Compare(Parts(first).value, Parts(second).value) == 0
      case _ => false
  }

  lemma SelectionIsUnique(versions: set<string>, selector: string, first: Resolution, second: Resolution)
    requires Selects(versions, selector, first) && Selects(versions, selector, second)
    ensures first == second
  {
    var matching := Matching(versions, selector);
    if selector !in versions && Parts(selector).Some? && Rankable(matching) {
      forall one, two | Top(matching, one) && Top(matching, two)
        ensures one == two
      {
        BeforeIsTotal(one, two);
      }
      if first.Ambiguous? && second.Ambiguous? {
        BeforeIsTotal(first.second, second.second);
      }
    }
  }

  /** In a validated catalog selection is never ambiguous: it returns the exact key, or the unique greatest match. */
  lemma ValidatedIsNeverAmbiguous(versions: set<string>, selector: string, result: Resolution)
    requires Distinguished(versions) && Selects(versions, selector, result)
    ensures !result.Ambiguous?
  {
    if result.Ambiguous? && selector !in versions && Parts(selector).Some? && Rankable(Matching(versions, selector)) {
      PartsNonEmpty(result.first);
      PartsNonEmpty(result.second);
      KeysDecideEquality(Parts(result.first).value, Parts(result.second).value);
    }
  }

  predicate Sorted(names: seq<string>)
    requires forall i :: 0 <= i < |names| ==> Parts(names[i]).Some?
  {
    forall i, j :: 0 <= i < j < |names| ==> Before(names[i], names[j])
  }

  /** Inserting a new name at its place. */
  method Insert(sorted: seq<string>, name: string) returns (longer: seq<string>)
    requires (forall i :: 0 <= i < |sorted| ==> Parts(sorted[i]).Some?) && Sorted(sorted)
    requires Parts(name).Some? && name !in sorted
    ensures (forall i :: 0 <= i < |longer| ==> Parts(longer[i]).Some?) && Sorted(longer)
    ensures forall other :: other in longer <==> other in sorted || other == name
  {
    var place := 0;
    while place < |sorted| && Before(sorted[place], name)
      invariant 0 <= place <= |sorted| && forall i :: 0 <= i < place ==> Before(sorted[i], name)
    {
      place := place + 1;
    }
    longer := sorted[..place] + [name] + sorted[place..];
    forall j | place <= j < |sorted|
      ensures Before(name, sorted[j])
    {
      BeforeIsTotal(name, sorted[place]);
      if j > place {
        BeforeIsTransitive(name, sorted[place], sorted[j]);
      }
    }
  }

  /** Resolving a selector over the versions in whatever order they are visited. */
  method ResolveVersion(versions: set<string>, selector: string) returns (result: Resolution)
    ensures Selects(versions, selector, result)
  {
    if selector in versions {
      return Release(selector);
    }
    if Parts(selector).None? {
      return NotNumeric;
    }
    var sorted: seq<string> := [];
    var left := versions;
    while left != {}
      invariant left <= versions
      invariant (forall i :: 0 <= i < |sorted| ==> Parts(sorted[i]).Some?) && Sorted(sorted)
      invariant forall name :: name in sorted <==> name in Matching(versions - left, selector)
    {
      var version :| version in left;
      if Matches(version, selector) {
        if Parts(version).None? {
          assert version in Matching(versions, selector);
          return Unrankable;
        }
        sorted := Insert(sorted, version);
      }
      left := left - {version};
    }
    assert versions - {} == versions;
    assert Rankable(Matching(versions, selector));
    SortedTop(sorted, Matching(versions, selector));
    if sorted == [] {
      return NoMatch;
    }
    if |sorted| > 1 {
      var order := CompareVersions(Parts(sorted[0]).value, Parts(sorted[1]).value);
      if order == 0 {
        return Ambiguous(sorted[0], sorted[1]);
      }
    }
    GreatestAlone(sorted);
    return Release(sorted[0]);
  }

  /** The first two names of the sorted matches. */
  lemma SortedTop(sorted: seq<string>, names: set<string>)
    requires (forall i :: 0 <= i < |sorted| ==> Parts(sorted[i]).Some?) && Sorted(sorted) && Rankable(names)
    requires forall name :: name in sorted <==> name in names
    ensures sorted == [] <==> names == {}
    ensures sorted != [] ==> Top(names, sorted[0])
    ensures |sorted| > 1 ==> Top(names - {sorted[0]}, sorted[1])
  {
    if sorted != [] {
      assert sorted[0] in names;
      forall other | other in names && other != sorted[0]
        ensures Before(sorted[0], other)
        ensures |sorted| > 1 && other != sorted[1] ==> Before(sorted[1], other)
      {
        var i :| 0 <= i < |sorted| && sorted[i] == other;
      }
      if |sorted| > 1 {
        assert sorted[1] in names;
        BeforeIsTotal(sorted[0], sorted[0]);
      }
    }
  }

  lemma GreatestAlone(sorted: seq<string>)
    requires sorted != [] && (forall i :: 0 <= i < |sorted| ==> Parts(sorted[i]).Some?) && Sorted(sorted)
    requires |sorted| > 1 ==> Compare(Parts(sorted[0]).value, Parts(sorted[1]).value) != 0
    ensures forall other :: other in sorted && other != sorted[0] ==> Compare(Parts(sorted[0]).value, Parts(other).value) > 0
  {
    forall other | other in sorted && other != sorted[0]
      ensures Compare(Parts(sorted[0]).value, Parts(other).value) > 0
    {
      var i :| 0 <= i < |sorted| && sorted[i] == other;
      assert Before(sorted[0], sorted[1]);
      if i > 1 {
        assert Before(sorted[1], sorted[i]);
        CompareIsPreorder(Parts(sorted[i]).value, Parts(sorted[1]).value, Parts(sorted[0]).value);
        CompareIsPreorder(Parts(sorted[0]).value, Parts(sorted[1]).value, Parts(sorted[0]).value);
        CompareIsPreorder(Parts(sorted[0]).value, Parts(sorted[i]).value, Parts(sorted[0]).value);
      }
    }
  }
}
