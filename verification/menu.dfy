/** The ordering and command computation of the menu `main` prints
    (jakobmenu.c): categories sorted by name with `compare_categories`,
    members sorted by `Name` with `compare_items`, and the terminal prefix
    for entries with `Terminal=true`. `qsort` is not stable; the model sorts
    by insertion, and its contracts state only what any sort guarantees:
    the order and the permutation. */
module Menu {
  import opened Wrappers
  import opened Text
  import opened Items
  import opened CategoryIndex
  import opened Seqs

  /** `s` is in nondecreasing byte order of `key`. */
  predicate SortedBy<T>(s: seq<T>, key: T -> string) {
    forall i, j :: 0 <= i < j < |s| ==> LexLe(key(s[i]), key(s[j]))
  }

  /** Puts `x` into a sorted sequence, before the first element it does
      not follow. */
  function InsertSorted<T(==)>(x: T, s: seq<T>, key: T -> string): (r: seq<T>)
    requires SortedBy(s, key)
    ensures SortedBy(r, key)
    ensures multiset(r) == multiset(s) + multiset{x}
    decreases |s|
  {
    if s == [] then [x]
    else if LexLe(key(x), key(s[0])) then
      InsertFront(x, s, key);
      [x] + s
    else
      var rest := InsertSorted(x, s[1..], key);
      LexLeTotal(key(x), key(s[0]));
      InsertBehind(x, s, rest, key);
      assert s == [s[0]] + s[1..];
      [s[0]] + rest
  }

  lemma InsertFront<T>(x: T, s: seq<T>, key: T -> string)
    requires s != [] && SortedBy(s, key) && LexLe(key(x), key(s[0]))
    ensures SortedBy([x] + s, key)
  {
    var r := [x] + s;
    forall i, j | 0 <= i < j < |r|
      ensures LexLe(key(r[i]), key(r[j]))
    {
      if i == 0 && j > 1 {
        LexLeTransitive(key(x), key(s[0]), key(s[j - 1]));
      }
    }
  }

  lemma InsertBehind<T>(x: T, s: seq<T>, rest: seq<T>, key: T -> string)
    requires s != [] && SortedBy(s, key) && LexLe(key(s[0]), key(x))
    requires SortedBy(rest, key) && multiset(rest) == multiset(s[1..]) + multiset{x}
    ensures SortedBy([s[0]] + rest, key)
  {
    forall j | 0 <= j < |rest|
      ensures LexLe(key(s[0]), key(rest[j]))
    {
      assert rest[j] in multiset(rest);
      if rest[j] != x {
        assert rest[j] in multiset(s[1..]);
        var k :| 0 <= k < |s[1..]| && s[1..][k] == rest[j];
        assert s[k + 1] == rest[j];
      }
    }
  }

  /** Sorts by `key`: the result is in order and is a permutation of `s`. */
  function SortBy<T(==)>(s: seq<T>, key: T -> string): (r: seq<T>)
    ensures SortedBy(r, key)
    ensures multiset(r) == multiset(s)
    ensures |r| == |s|
    decreases |s|
  {
    if s == [] then []
    else
      assert s == [s[0]] + s[1..];
      InsertSorted(s[0], SortBy(s[1..], key), key)
  }

  /** Sorting what is already sorted changes nothing, so sorting twice is
      sorting once. */
  lemma {:induction false} SortSorted<T>(s: seq<T>, key: T -> string)
    requires SortedBy(s, key)
    ensures SortBy(s, key) == s
    decreases |s|
  {
    if s != [] {
      SortSorted(s[1..], key);
      assert SortBy(s, key) == InsertSorted(s[0], s[1..], key);
      if |s| > 1 {
        assert LexLe(key(s[0]), key(s[1..][0]));
      }
    }
  }

  lemma SortIdempotent<T>(s: seq<T>, key: T -> string)
    ensures SortBy(SortBy(s, key), key) == SortBy(s, key)
  {
    SortSorted(SortBy(s, key), key);
  }

  function CategoryName(c: Category): string { c.name }

  function ItemName(i: Item): string { i.name }

  /** The prefix that runs an entry in a terminal. */
  const TerminalPrefix := "xterm -e "

  /** The command an item runs: `Exec`, behind the terminal prefix when
      `Terminal=true`. */
  function Command(item: Item): (r: string)
    ensures item.useTerminal ==> StartsWith(r, TerminalPrefix) && |r| == |TerminalPrefix| + |item.exec|
    ensures item.useTerminal ==> r[|TerminalPrefix|..] == item.exec
    ensures !item.useTerminal ==> r == item.exec
  {
    if item.useTerminal then TerminalPrefix + item.exec else item.exec
  }

  /** The command gives `Exec` back: strip the prefix iff the item runs in
      a terminal. */
  lemma CommandRecoversExec(item: Item)
    ensures item.exec == (if item.useTerminal then Command(item)[|TerminalPrefix|..] else Command(item))
  {
  }

  /** One `<item>` of the menu: its caption and the command it executes. */
  datatype MenuItem = MenuItem(caption: string, command: string)

  /** One `<menu>` block: a category name and its items. */
  datatype MenuBlock = MenuBlock(name: string, items: seq<MenuItem>)

  function ItemLine(item: Item): MenuItem {
    MenuItem(item.name, Command(item))
  }

  function EntriesOf(items: seq<Item>): (r: seq<MenuItem>)
    ensures |r| == |items|
    ensures forall i :: 0 <= i < |items| ==> r[i] == ItemLine(items[i])
  {
    Map(ItemLine, items)
  }

  /** A category's block: its members sorted by `Name`, each shown with
      its command. */
  function RenderCategory(c: Category): (r: MenuBlock)
    ensures r.name == c.name
    ensures |r.items| == |c.members|
    ensures forall i, j :: 0 <= i < j < |r.items| ==> LexLe(r.items[i].caption, r.items[j].caption)
    ensures multiset(r.items) == multiset(EntriesOf(c.members))
  {
    var sorted := SortBy(c.members, ItemName);
    MapPermutation(ItemLine, sorted, c.members);
    MenuBlock(c.name, EntriesOf(sorted))
  }

  /** The blocks of categories in the given order. */
  function Blocks(cs: seq<Category>): (r: seq<MenuBlock>)
    ensures |r| == |cs|
    ensures forall i :: 0 <= i < |cs| ==> r[i] == RenderCategory(cs[i])
  {
    Map(RenderCategory, cs)
  }

  /** The whole menu: one block per category, in name order; the blocks are
      a permutation of the categories' blocks in index order. */
  function Render(ix: Index): (r: seq<MenuBlock>)
    ensures |r| == |ix.categories|
    ensures forall i, j :: 0 <= i < j < |r| ==> LexLe(r[i].name, r[j].name)
    ensures multiset(r) == multiset(Blocks(ix.categories))
  {
    var sorted := SortBy(ix.categories, CategoryName);
    MapPermutation(RenderCategory, sorted, ix.categories);
    Blocks(sorted)
  }

  /** Items `Alpha` and `Zeta` in one category come out `Alpha` first. */
  lemma AlphaBeforeZeta(alpha: Item, zeta: Item)
    requires alpha.name == "Alpha" && zeta.name == "Zeta"
    ensures SortBy([zeta, alpha], ItemName) == [alpha, zeta]
  {
    assert !LexLe("Zeta", "Alpha");
    assert LexLe("Alpha", "Zeta");
    var one := SortBy([alpha], ItemName);
    assert [zeta, alpha][1..] == [alpha];
    assert one == [alpha];
  }
}
