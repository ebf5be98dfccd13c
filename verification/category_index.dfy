/** The category index of jakobmenu.c: `get_category`, `append_category`,
    `ADD_MEMBER`, and the filing of an accepted entry under its primary
    category and, with fan-out, its secondary ones. The growable arrays keep
    their capacities (`ccategories`, `cmembers`), which double when full.
    An item filed under several categories is the same value in each. */
module CategoryIndex {
  import opened Wrappers
  import opened DesktopEntry
  import opened Items
  import opened Text
  import opened Seqs

  /** Initial capacity of every growable array. */
  const DefaultCapacity: nat := 2

  datatype Category = Category(name: string, members: seq<Item>, capacity: nat)

  datatype Index = Index(categories: seq<Category>, capacity: nat)

  /** The index `main` starts from. */
  const Empty := Index([], DefaultCapacity)

  predicate CategoryValid(c: Category) {
    0 < c.capacity && |c.members| <= c.capacity
  }

  /** Category names are unique, and no array holds more than its capacity. */
  predicate Valid(ix: Index) {
    && 0 < ix.capacity && |ix.categories| <= ix.capacity
    && (forall i :: 0 <= i < |ix.categories| ==> CategoryValid(ix.categories[i]))
    && (forall i, j :: 0 <= i < j < |ix.categories| ==> ix.categories[i].name != ix.categories[j].name)
  }

  /** `get_category`: the position of the category with this name. */
  function Find(cats: seq<Category>, name: string): (r: Option<nat>)
    ensures r.None? <==> forall i :: 0 <= i < |cats| ==> cats[i].name != name
    ensures r.Some? ==> r.value < |cats| && cats[r.value].name == name
    ensures r.Some? ==> forall i :: 0 <= i < r.value ==> cats[i].name != name
  {
    FirstIndex(cats, (c: Category) => c.name == name)
  }

  /** The capacity after storing one more element into an array holding
      `n` elements: doubled when full. */
  function Grow(n: nat, capacity: nat): (r: nat)
    requires 0 < capacity && n <= capacity
    ensures n < r
    ensures n < capacity ==> r == capacity
    ensures n == capacity ==> r == 2 * capacity
  {
    if n >= capacity then 2 * capacity else capacity
  }

  /** `append_category`: a new empty category at the end. */
  function AppendCategory(ix: Index, name: string): (r: Index)
    requires Valid(ix)
    requires Find(ix.categories, name).None?
    ensures Valid(r)
    ensures r.categories == ix.categories + [Category(name, [], DefaultCapacity)]
  {
    Index(ix.categories + [Category(name, [], DefaultCapacity)], Grow(|ix.categories|, ix.capacity))
  }

  /** `ADD_MEMBER`: the item goes at the end of the category. */
  function AddMember(c: Category, item: Item): (r: Category)
    requires CategoryValid(c)
    ensures CategoryValid(r)
    ensures r.name == c.name && r.members == c.members + [item]
  {
    Category(c.name, c.members + [item], Grow(|c.members|, c.capacity))
  }

  /** The members filed under a name; none if there is no such category. */
  function MembersOf(ix: Index, name: string): seq<Item> {
    MembersIn(ix.categories, name)
  }

  function MembersIn(cats: seq<Category>, name: string): seq<Item> {
    match Find(cats, name)
    case None => []
    case Some(i) => cats[i].members
  }

  function Names(ix: Index): (r: seq<string>)
    ensures |r| == |ix.categories|
    ensures forall i :: 0 <= i < |r| ==> r[i] == ix.categories[i].name
  {
    seq(|ix.categories|, i requires 0 <= i < |ix.categories| => ix.categories[i].name)
  }

  /** Look up or create the category, then add the item to it. Names stay
      unique; exactly this category gains exactly this one member at its
      end, and every other category keeps its members. */
  function Insert(ix: Index, name: string, item: Item): (r: Index)
    requires Valid(ix)
    ensures Valid(r)
    ensures MembersOf(r, name) == MembersOf(ix, name) + [item]
    ensures forall other :: other != name ==> MembersOf(r, other) == MembersOf(ix, other)
  {
    match Find(ix.categories, name)
    case Some(i) =>
      var r := ix.(categories := ix.categories[i := AddMember(ix.categories[i], item)]);
      UpdateKeepsNames(ix, r, i);
      UpdateMembers(ix.categories, name, i, AddMember(ix.categories[i], item));
      r
    case None =>
      var ix1 := AppendCategory(ix, name);
      var i := |ix.categories|;
      AppendMembers(ix.categories, name);
      assert Find(ix1.categories, name) == Some(i);
      var r := ix1.(categories := ix1.categories[i := AddMember(ix1.categories[i], item)]);
      UpdateKeepsNames(ix1, r, i);
      UpdateMembers(ix1.categories, name, i, AddMember(ix1.categories[i], item));
      r
  }

  /** Replacing a category by a valid one of the same name keeps the index
      valid. */
  lemma UpdateKeepsNames(ix: Index, r: Index, i: nat)
    requires Valid(ix) && i < |ix.categories|
    requires r.capacity == ix.capacity && |r.categories| == |ix.categories|
    requires r.categories[i].name == ix.categories[i].name && CategoryValid(r.categories[i])
    requires forall j :: 0 <= j < |ix.categories| && j != i ==> r.categories[j] == ix.categories[j]
    ensures Valid(r)
  {
    assert forall j :: 0 <= j < |ix.categories| ==> r.categories[j].name == ix.categories[j].name;
  }

  /** Replacing the category found for `name` changes what `name` holds and
      nothing else. */
  lemma UpdateMembers(cats: seq<Category>, name: string, i: nat, c: Category)
    requires Find(cats, name) == Some(i) && c.name == name
    ensures MembersIn(cats[i := c], name) == c.members
    ensures forall other :: other != name ==> MembersIn(cats[i := c], other) == MembersIn(cats, other)
  {
    var u := cats[i := c];
    assert forall j :: 0 <= j < |cats| ==> u[j].name == cats[j].name;
    forall other
      ensures Find(u, other) == Find(cats, other)
    {
      FindSameNames(cats, u, other);
    }
  }

  /** Appending a new empty category: it holds nothing, and every other
      name keeps its members. */
  lemma AppendMembers(cats: seq<Category>, name: string)
    requires Find(cats, name).None?
    ensures Find(cats + [Category(name, [], DefaultCapacity)], name) == Some(|cats|)
    ensures forall other :: other != name ==> MembersIn(cats + [Category(name, [], DefaultCapacity)], other) == MembersIn(cats, other)
  {
    var tail := [Category(name, [], DefaultCapacity)];
    forall other | other != name
      ensures MembersIn(cats + tail, other) == MembersIn(cats, other)
    {
      FindPrefix(cats, tail, other);
      match Find(cats, other)
      case None =>
      case Some(j) => assert (cats + tail)[j] == cats[j];
    }
    assert (cats + tail)[|cats|].name == name;
    assert forall j :: 0 <= j < |cats| ==> (cats + tail)[j].name == cats[j].name;
  }

  /** A new name goes after the existing ones; an existing name leaves the
      order of categories as it is. */
  lemma InsertNames(ix: Index, name: string, item: Item)
    requires Valid(ix)
    ensures Names(Insert(ix, name, item)) == Names(ix) + (if name in Names(ix) then [] else [name])
  {
    var r := Insert(ix, name, item);
    match Find(ix.categories, name)
    case Some(i) =>
      assert Names(ix)[i] == name;
    case None =>
      assert name !in Names(ix);
  }

  /** Looking up a name that is not in the appended tail. */
  lemma {:induction false} FindPrefix(cats: seq<Category>, tail: seq<Category>, name: string)
    requires forall i :: 0 <= i < |tail| ==> tail[i].name != name
    ensures Find(cats + tail, name) == Find(cats, name)
    decreases |cats|
  {
    if cats == [] {
      assert cats + tail == tail;
    } else {
      assert (cats + tail)[0] == cats[0];
      assert (cats + tail)[1..] == cats[1..] + tail;
      FindPrefix(cats[1..], tail, name);
    }
  }

  /** Lookup depends on the names only. */
  lemma {:induction false} FindSameNames(a: seq<Category>, b: seq<Category>, name: string)
    requires |a| == |b|
    requires forall i :: 0 <= i < |a| ==> a[i].name == b[i].name
    ensures Find(a, name) == Find(b, name)
    decreases |a|
  {
    if a != [] {
      FindSameNames(a[1..], b[1..], name);
    }
  }

  /** Inserting into each named category in turn. */
  function InsertAll(ix: Index, names: seq<string>, item: Item): (r: Index)
    requires Valid(ix)
    ensures Valid(r)
    decreases |names|
  {
    if names == [] then ix else InsertAll(Insert(ix, names[0], item), names[1..], item)
  }

  /** `x` repeated `n` times. */
  function Repeat<T>(x: T, n: nat): (r: seq<T>)
    ensures |r| == n
    ensures forall i :: 0 <= i < n ==> r[i] == x
  {
    if n == 0 then [] else [x] + Repeat(x, n - 1)
  }

  /** After inserting under a list of names, each category has gained the
      item once per occurrence of its name in the list, at its end. */
  lemma {:induction false} InsertAllMembers(ix: Index, names: seq<string>, item: Item, x: string)
    requires Valid(ix)
    ensures MembersOf(InsertAll(ix, names, item), x) == MembersOf(ix, x) + Repeat(item, multiset(names)[x])
    decreases |names|
  {
    if names == [] {
      assert MembersOf(ix, x) + [] == MembersOf(ix, x);
    } else {
      var ix1 := Insert(ix, names[0], item);
      InsertAllMembers(ix1, names[1..], item, x);
      InsertOne(ix, names[0], item, x);
      CountCons(names, x);
      RepeatSnoc(item, multiset(names[1..])[x]);
    }
  }

  lemma InsertOne(ix: Index, name: string, item: Item, x: string)
    requires Valid(ix)
    ensures MembersOf(Insert(ix, name, item), x) == MembersOf(ix, x) + (if name == x then [item] else [])
  {
  }

  lemma CountCons<T>(s: seq<T>, x: T)
    requires s != []
    ensures multiset(s)[x] == multiset(s[1..])[x] + (if s[0] == x then 1 else 0)
  {
    assert s == [s[0]] + s[1..];
  }

  lemma RepeatSnoc<T>(x: T, n: nat)
    ensures Repeat(x, n) + [x] == Repeat(x, n + 1)
  {
  }

  /** The categories an entry is filed under: its primary category, then,
      with fan-out, the wanted later segments. */
  function Targets(e: Entry, fanOut: bool): seq<string> {
    [PrimaryCategory(e.categories)] + (if fanOut then SecondaryCategories(e.categories) else [])
  }

  /** The filing step of `parseDotDesktop` for an accepted entry. */
  function AddEntry(ix: Index, e: Entry, fanOut: bool): (r: Index)
    requires Valid(ix)
    ensures Valid(r)
  {
    var item := NewItem(e);
    var ix1 := Insert(ix, item.category, item);
    if fanOut then InsertAll(ix1, SecondaryCategories(e.categories), item) else ix1
  }

  /** Filing an entry is inserting its item under each target in turn. */
  lemma AddEntryInsertsTargets(ix: Index, e: Entry, fanOut: bool)
    requires Valid(ix)
    ensures AddEntry(ix, e, fanOut) == InsertAll(ix, Targets(e, fanOut), NewItem(e))
  {
    var item := NewItem(e);
    var t := Targets(e, fanOut);
    assert t[0] == item.category;
    assert InsertAll(ix, t, item) == InsertAll(Insert(ix, t[0], item), t[1..], item);
    if !fanOut {
      assert t[1..] == [];
    }
  }

  /** Each category gains the entry's item once per time it is a target:
      without fan-out, exactly once under the primary category and nowhere
      else; with fan-out, also once per wanted later segment, repeats
      included. */
  lemma AddEntryMembers(ix: Index, e: Entry, fanOut: bool, x: string)
    requires Valid(ix)
    ensures MembersOf(AddEntry(ix, e, fanOut), x)
            == MembersOf(ix, x) + Repeat(NewItem(e), multiset(Targets(e, fanOut))[x])
  {
    AddEntryInsertsTargets(ix, e, fanOut);
    InsertAllMembers(ix, Targets(e, fanOut), NewItem(e), x);
  }

  /** Without fan-out an entry lands exactly once, under its primary
      category, and nowhere else. */
  lemma PrimaryOnlyWithoutFanOut(ix: Index, e: Entry, x: string)
    requires Valid(ix)
    ensures MembersOf(AddEntry(ix, e, false), x)
            == MembersOf(ix, x) + (if x == PrimaryCategory(e.categories) then [NewItem(e)] else [])
  {
    AddEntryMembers(ix, e, false, x);
    assert Targets(e, false) == [PrimaryCategory(e.categories)];
  }

  /** A vendor-extension name gains nothing unless it is the primary
      category itself, fan-out or not. */
  lemma VendorNeverAdded(ix: Index, e: Entry, fanOut: bool, x: string)
    requires Valid(ix)
    requires StartsWith(x, "X-") || StartsWith(x, "x-")
    requires x != PrimaryCategory(e.categories)
    ensures MembersOf(AddEntry(ix, e, fanOut), x) == MembersOf(ix, x)
  {
    AddEntryMembers(ix, e, fanOut, x);
    var t := Targets(e, fanOut);
    if fanOut {
      assert t == [PrimaryCategory(e.categories)] + SecondaryCategories(e.categories);
      assert multiset(SecondaryCategories(e.categories))[x] == 0 by {
        match e.categories
        case None =>
        case Some(c) => SecondaryCounts(c, x);
      }
    }
    assert multiset(t)[x] == 0;
    assert MembersOf(ix, x) + [] == MembersOf(ix, x);
  }
}
