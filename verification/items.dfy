/** Menu items (`struct item` and `new_item` in jakobmenu.c) and the
    categories an accepted `.desktop` entry is filed under. */
module Items {
  import opened Wrappers
  import opened Text
  import opened DesktopEntry

  datatype Item = Item(
    name: string,
    exec: string,
    category: string,
    icon: Option<string>,
    path: Option<string>,
    useTerminal: bool)

  /** The category of an entry that has no `Categories` key. */
  const DefaultCategory := "Misc"

  /** The primary category: `Categories` up to its first `;`, or `Misc`
      when the key is absent. An empty `Categories=` gives the empty
      category, not `Misc`. */
  function PrimaryCategory(categories: Option<string>): (r: string)
    ensures categories.None? ==> r == DefaultCategory
    ensures categories.Some? ==> StartsWith(categories.value, r) && ';' !in r
    ensures categories.Some? && |r| < |categories.value| ==> categories.value[|r|] == ';'
  {
    match categories
    case None => DefaultCategory
    case Some(c) =>
      var r := Split(c, ';')[0];
      FirstPiece(c, ';');
      r
  }

  /** The first piece of a split is the text before the first separator. */
  lemma FirstPiece(s: string, sep: char)
    ensures StartsWith(s, Split(s, sep)[0])
    ensures |Split(s, sep)[0]| < |s| ==> s[|Split(s, sep)[0]|] == sep
  {
    var parts := Split(s, sep);
    if |parts| > 1 {
      assert s == parts[0] + [sep] + Join(parts[1..], sep);
      assert s[..|parts[0]|] == parts[0];
    }
  }

  /** `new_item`: the entry's strings, filed under its primary category. */
  function NewItem(e: Entry): (r: Item)
    ensures r.name == e.name && r.exec == e.exec && r.icon == e.icon && r.path == e.path
    ensures r.useTerminal == e.terminal
    ensures r.category == PrimaryCategory(e.categories)
  {
    Item(e.name, e.exec, PrimaryCategory(e.categories), e.icon, e.path, e.terminal)
  }

  /** A later `;` segment that fan-out files the item under: not empty and
      not a vendor extension (`X-` or `x-`). */
  predicate Wanted(segment: string) {
    segment != [] && !StartsWith(segment, "X-") && !StartsWith(segment, "x-")
  }

  /** The wanted segments, in order. Every occurrence counts: a segment
      repeated in `Categories` is repeated here. */
  function Keep(segments: seq<string>): (r: seq<string>)
    ensures forall i :: 0 <= i < |r| ==> Wanted(r[i])
    ensures forall x :: multiset(r)[x] == (if Wanted(x) then multiset(segments)[x] else 0)
  {
    if segments == [] then []
    else
      var rest := Keep(segments[1..]);
      assert segments == [segments[0]] + segments[1..];
      if Wanted(segments[0]) then [segments[0]] + rest else rest
  }

  /** The categories after the first `;` that fan-out adds the item to. */
  function SecondaryCategories(categories: Option<string>): (r: seq<string>)
    ensures categories.None? ==> r == []
    ensures forall i :: 0 <= i < |r| ==> Wanted(r[i]) && ';' !in r[i]
  {
    match categories
    case None => []
    case Some(c) =>
      var later := Split(c, ';')[1..];
      var r := Keep(later);
      assert forall i :: 0 <= i < |r| ==> r[i] in multiset(later);
      r
  }

  /** The segments of `Categories` after the first, wanted or not. */
  function LaterSegments(c: string): seq<string> {
    Split(c, ';')[1..]
  }

  /** Fan-out files the item under exactly the wanted later segments, each
      as often as it occurs. */
  lemma SecondaryCounts(c: string, x: string)
    ensures multiset(SecondaryCategories(Some(c)))[x]
            == if Wanted(x) then multiset(LaterSegments(c))[x] else 0
  {
  }

  /** Rejoining the primary category and the later segments gives back the
      whole `Categories` value. */
  lemma CategoriesRejoin(c: string)
    ensures Join([PrimaryCategory(Some(c))] + LaterSegments(c), ';') == c
  {
    var parts := Split(c, ';');
    assert [parts[0]] + parts[1..] == parts;
  }

  /** A vendor extension between two ordinary categories is skipped:
      `Categories=Network;X-Foo;Dev` files the item under `Network` and,
      with fan-out, `Dev`, but never under `X-Foo`. */
  lemma VendorSegmentSkipped(primary: string, vendor: string, other: string)
    requires ';' !in primary && ';' !in vendor && ';' !in other
    requires StartsWith(vendor, "X-") || StartsWith(vendor, "x-")
    requires Wanted(other)
    ensures PrimaryCategory(Some(primary + ";" + vendor + ";" + other)) == primary
    ensures SecondaryCategories(Some(primary + ";" + vendor + ";" + other)) == [other]
  {
    var parts := [primary, vendor, other];
    assert Join(parts, ';') == primary + ";" + vendor + ";" + other by {
      assert Join([other], ';') == other;
      assert Join([vendor, other], ';') == vendor + ";" + other;
    }
    SplitJoin(parts, ';');
    assert parts[1..] == [vendor, other];
    assert Keep([other]) == [other];
  }

  /** An empty `Categories=` files the item under the empty category. */
  lemma EmptyCategoriesIsNotMisc()
    ensures PrimaryCategory(Some("")) == ""
    ensures SecondaryCategories(Some("")) == []
  {
  }
}
