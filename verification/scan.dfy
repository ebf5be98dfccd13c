/** The program as a whole (jakobmenu.c, `parseAll` and `main`): both rc
    files and the command line give the search paths and the fan-out flag,
    every `.desktop` file of every search directory is parsed and filed, and
    the index is rendered. The file system is a parameter: a listing per
    directory, in `readdir` order, and the contents of the readable files. */
module Pipeline {
  import opened Wrappers
  import opened Text
  import opened Tilde
  import opened RcConfig
  import opened DesktopEntry
  import opened Items
  import opened CategoryIndex
  import opened Menu
  import opened Seqs

  datatype FileSystem = FileSystem(listings: map<string, seq<string>>, files: map<string, string>)

  /** The contents of a file, or `None` when it cannot be opened. */
  function ReadFile(fs: FileSystem, path: string): Option<string> {
    if path in fs.files then Some(fs.files[path]) else None
  }

  const DesktopSuffix := ".desktop"

  /** A directory entry `parseAll` parses: a name longer than `.desktop`
      that ends in it. */
  predicate IsDesktopFile(name: string) {
    |name| > |DesktopSuffix| && EndsWith(name, DesktopSuffix)
  }

  /** Exactly the names made of a non-empty stem and the suffix are parsed:
      `.desktop` itself is not. */
  lemma DesktopFileIffStem(name: string)
    ensures IsDesktopFile(name) <==> exists stem :: stem != [] && name == stem + DesktopSuffix
  {
    if IsDesktopFile(name) {
      var stem := name[..|name| - |DesktopSuffix|];
      assert name == stem + DesktopSuffix;
    }
    forall stem | stem != [] && name == stem + DesktopSuffix
      ensures IsDesktopFile(name)
    {
      assert name[|name| - |DesktopSuffix|..] == DesktopSuffix;
    }
  }

  /** The full path of a directory entry: directory, a `/` unless the
      directory already ends in one, and the name. */
  function JoinPath(dir: string, name: string): (r: string)
    ensures StartsWith(r, dir) && EndsWith(r, name)
    ensures |r| == |dir| + |name| + (if EndsWith(dir, "/") then 0 else 1)
  {
    var r := dir + Separator(dir) + name;
    assert r[..|dir|] == dir;
    assert r[|r| - |name|..] == name;
    r
  }

  /** Directory and name are always joined by exactly one `/` of the
      directory's own or an added one; an empty directory gives `/name`. */
  lemma JoinPathOneSlash(dir: string, name: string)
    ensures JoinPath(dir, name) == TrimOneSlash(dir) + "/" + name
  {
    if EndsWith(dir, "/") {
      assert dir == dir[..|dir| - 1] + "/";
    }
  }

  /** The entry one directory entry contributes: none unless it is a
      `.desktop` file that parses and is accepted. */
  function EntryAt(fs: FileSystem, dir: string, name: string): Option<Entry> {
    if IsDesktopFile(name) then ParseDesktop(ReadFile(fs, JoinPath(dir, name))) else None
  }

  /** The `readdir` loop of `parseAll` over one directory's listing. */
  function ScanDir(ix: Index, fs: FileSystem, dir: string, names: seq<string>, fanOut: bool): (r: Index)
    requires Valid(ix)
    ensures Valid(r)
    decreases |names|
  {
    if names == [] then ix
    else
      var ix1 := match EntryAt(fs, dir, names[0])
        case None => ix
        case Some(e) => AddEntry(ix, e, fanOut);
      ScanDir(ix1, fs, dir, names[1..], fanOut)
  }

  /** `parseAll`: every search directory in list order. A path that did not
      expand, or a directory that cannot be opened, is skipped. */
  function ScanAll(ix: Index, fs: FileSystem, paths: seq<Option<string>>, fanOut: bool): (r: Index)
    requires Valid(ix)
    ensures Valid(r)
    decreases |paths|
  {
    if paths == [] then ix
    else
      var ix1 := match paths[0]
        case Some(d) => if d in fs.listings then ScanDir(ix, fs, d, fs.listings[d], fanOut) else ix
        case None => ix;
      ScanAll(ix1, fs, paths[1..], fanOut)
  }

  // An independent description: the accepted entries, then their filing.

  /** The accepted entries of one directory, in listing order. */
  function Found(fs: FileSystem, dir: string, names: seq<string>): seq<Entry> {
    if names == [] then []
    else
      var here := match EntryAt(fs, dir, names[0])
        case None => []
        case Some(e) => [e];
      here + Found(fs, dir, names[1..])
  }

  /** The accepted entries of all search directories, in scan order. */
  function FoundAll(fs: FileSystem, paths: seq<Option<string>>): seq<Entry> {
    if paths == [] then []
    else
      var here := match paths[0]
        case Some(d) => if d in fs.listings then Found(fs, d, fs.listings[d]) else []
        case None => [];
      here + FoundAll(fs, paths[1..])
  }

  /** Filing a list of entries in order. */
  function AddAll(ix: Index, es: seq<Entry>, fanOut: bool): (r: Index)
    requires Valid(ix)
    ensures Valid(r)
    decreases |es|
  {
    if es == [] then ix else AddAll(AddEntry(ix, es[0], fanOut), es[1..], fanOut)
  }

  lemma {:induction false} AddAllAppend(ix: Index, a: seq<Entry>, b: seq<Entry>, fanOut: bool)
    requires Valid(ix)
    ensures AddAll(ix, a + b, fanOut) == AddAll(AddAll(ix, a, fanOut), b, fanOut)
    decreases |a|
  {
    if a != [] {
      assert (a + b)[0] == a[0] && (a + b)[1..] == a[1..] + b;
      AddAllAppend(AddEntry(ix, a[0], fanOut), a[1..], b, fanOut);
    } else {
      assert a + b == b;
    }
  }

  lemma AddAllOne(ix: Index, e: Entry, fanOut: bool)
    requires Valid(ix)
    ensures AddAll(ix, [e], fanOut) == AddEntry(ix, e, fanOut)
  {
    assert [e][1..] == [];
  }

  /** Scanning a directory is filing its accepted entries in listing order;
      names that are not `.desktop` files, files that cannot be read and
      rejected entries contribute nothing. */
  lemma {:induction false} ScanDirFilesFound(ix: Index, fs: FileSystem, dir: string, names: seq<string>, fanOut: bool)
    requires Valid(ix)
    ensures ScanDir(ix, fs, dir, names, fanOut) == AddAll(ix, Found(fs, dir, names), fanOut)
    decreases |names|
  {
    if names != [] {
      var here := match EntryAt(fs, dir, names[0])
        case None => []
        case Some(e) => [e];
      var ix1 := AddAll(ix, here, fanOut);
      if EntryAt(fs, dir, names[0]).Some? {
        AddAllOne(ix, EntryAt(fs, dir, names[0]).value, fanOut);
      }
      ScanDirFilesFound(ix1, fs, dir, names[1..], fanOut);
      AddAllAppend(ix, here, Found(fs, dir, names[1..]), fanOut);
    }
  }

  /** Scanning every directory is filing all accepted entries in scan
      order. */
  lemma {:induction false} ScanAllFilesFound(ix: Index, fs: FileSystem, paths: seq<Option<string>>, fanOut: bool)
    requires Valid(ix)
    ensures ScanAll(ix, fs, paths, fanOut) == AddAll(ix, FoundAll(fs, paths), fanOut)
    decreases |paths|
  {
    if paths != [] {
      var here := match paths[0]
        case Some(d) => if d in fs.listings then Found(fs, d, fs.listings[d]) else []
        case None => [];
      var ix1 := AddAll(ix, here, fanOut);
      if paths[0].Some? && paths[0].value in fs.listings {
        ScanDirFilesFound(ix, fs, paths[0].value, fs.listings[paths[0].value], fanOut);
      }
      ScanAllFilesFound(ix1, fs, paths[1..], fanOut);
      AddAllAppend(ix, here, FoundAll(fs, paths[1..]), fanOut);
    }
  }

  /** The items a list of entries files under `x`, in order: each entry's
      item once per time `x` is among its targets. */
  function FiledUnder(es: seq<Entry>, x: string, fanOut: bool): seq<Item> {
    if es == [] then []
    else Repeat(NewItem(es[0]), multiset(Targets(es[0], fanOut))[x]) + FiledUnder(es[1..], x, fanOut)
  }

  /** Filing a list of entries appends to each category exactly the items
      filed under its name, in entry order. */
  lemma {:induction false} AddAllMembers(ix: Index, es: seq<Entry>, fanOut: bool, x: string)
    requires Valid(ix)
    ensures MembersOf(AddAll(ix, es, fanOut), x) == MembersOf(ix, x) + FiledUnder(es, x, fanOut)
    decreases |es|
  {
    if es == [] {
      assert MembersOf(ix, x) + [] == MembersOf(ix, x);
    } else {
      AddAllMembers(AddEntry(ix, es[0], fanOut), es[1..], fanOut, x);
      FileFirst(ix, es, fanOut, x);
    }
  }

  /** One step of `AddAllMembers`: the first entry is filed first. */
  lemma FileFirst(ix: Index, es: seq<Entry>, fanOut: bool, x: string)
    requires Valid(ix) && es != []
    requires var ix1 := AddEntry(ix, es[0], fanOut);
             MembersOf(AddAll(ix1, es[1..], fanOut), x) == MembersOf(ix1, x) + FiledUnder(es[1..], x, fanOut)
    ensures MembersOf(AddAll(ix, es, fanOut), x) == MembersOf(ix, x) + FiledUnder(es, x, fanOut)
  {
    var ix1 := AddEntry(ix, es[0], fanOut);
    var head := Repeat(NewItem(es[0]), multiset(Targets(es[0], fanOut))[x]);
    var tail := FiledUnder(es[1..], x, fanOut);
    AddEntryMembers(ix, es[0], fanOut, x);
    assert AddAll(ix, es, fanOut) == AddAll(ix1, es[1..], fanOut);
    assert FiledUnder(es, x, fanOut) == head + tail;
    ConcatAssoc(MembersOf(ix, x), head, tail);
  }

  lemma ConcatAssoc<T>(a: seq<T>, b: seq<T>, c: seq<T>)
    ensures a + b + c == a + (b + c)
  {
  }

  /** Every entry's item is filed under its primary category. */
  lemma {:induction false} FiledUnderPrimary(es: seq<Entry>, e: Entry, fanOut: bool)
    requires e in es
    ensures NewItem(e) in FiledUnder(es, PrimaryCategory(e.categories), fanOut)
    decreases |es|
  {
    var x := PrimaryCategory(e.categories);
    var head := Repeat(NewItem(es[0]), multiset(Targets(es[0], fanOut))[x]);
    if es[0] == e {
      assert Targets(e, fanOut)[0] == x;
      assert x in multiset(Targets(e, fanOut));
      assert head[0] == NewItem(e);
    } else {
      FiledUnderPrimary(es[1..], e, fanOut);
    }
    assert FiledUnder(es, x, fanOut) == head + FiledUnder(es[1..], x, fanOut);
  }

  /** A member of a category shows up in that category's block of the
      rendered menu. */
  lemma MemberIsRendered(ix: Index, x: string, item: Item)
    requires item in MembersOf(ix, x)
    ensures exists b :: b in Render(ix) && b.name == x && ItemLine(item) in b.items
  {
    var i := Find(ix.categories, x).value;
    var c := ix.categories[i];
    BlockRendered(ix, i);
    ItemInBlock(c, item);
    var b := RenderCategory(c);
    assert b in Render(ix) && b.name == x && ItemLine(item) in b.items;
  }

  lemma BlockRendered(ix: Index, i: nat)
    requires i < |ix.categories|
    ensures RenderCategory(ix.categories[i]) in Render(ix)
  {
    assert Blocks(ix.categories)[i] == RenderCategory(ix.categories[i]);
    assert RenderCategory(ix.categories[i]) in multiset(Render(ix));
  }

  lemma ItemInBlock(c: Category, item: Item)
    requires item in c.members
    ensures ItemLine(item) in RenderCategory(c).items
  {
    var k :| 0 <= k < |c.members| && c.members[k] == item;
    assert EntriesOf(c.members)[k] == ItemLine(item);
    assert ItemLine(item) in multiset(RenderCategory(c).items);
  }

  /** The command-line options that shape the menu: `-p dir` and `-a`. */
  datatype CliOption = SearchPathOption(dir: string) | AllCategoriesOption

  /** An option acts as the rc directive of the same meaning. */
  function DirectiveOfOption(o: CliOption): Directive {
    match o
    case SearchPathOption(d) => SearchPath(d)
    case AllCategoriesOption => FanOut(true)
  }

  /** The directives of a command line, in order. */
  function OptionDirectives(opts: seq<CliOption>): (r: seq<Directive>)
    ensures |r| == |opts|
    ensures forall i :: 0 <= i < |opts| ==> r[i] == DirectiveOfOption(opts[i])
  {
    Map(DirectiveOfOption, opts)
  }

  /** The `getopt` loop of `main`, after both rc files. */
  function ApplyOptions(ctx: Context, opts: seq<CliOption>, home: Option<string>): Context {
    Run(ctx, OptionDirectives(opts), home, 0).ctx
  }

  /** `-p` directories go on the front of the list, the last one first, as
      rc `path` lines do; `-a` can only switch fan-out on. */
  lemma OptionsSpec(ctx: Context, opts: seq<CliOption>, home: Option<string>)
    ensures ApplyOptions(ctx, opts, home).paths == Reverse(PathsOf(OptionDirectives(opts), home)) + ctx.paths
    ensures ApplyOptions(ctx, opts, home).useAllCategories <==> ctx.useAllCategories || AllCategoriesOption in opts
  {
    var ds := OptionDirectives(opts);
    OptionsAccepted(ds);
    RunSpec(ctx, ds, home, 0);
    LastFlagOfOptions(ds, ctx.useAllCategories);
    if AllCategoriesOption in opts {
      var i :| 0 <= i < |opts| && opts[i] == AllCategoriesOption;
      assert ds[i] == FanOut(true);
    }
    if FanOut(true) in ds {
      var i :| 0 <= i < |ds| && ds[i] == FanOut(true);
      assert opts[i] == AllCategoriesOption;
    }
  }

  lemma {:induction false} OptionsAccepted(ds: seq<Directive>)
    requires SyntaxError !in ds
    ensures Accepted(ds) == ds
    decreases |ds|
  {
    if ds != [] {
      OptionsAccepted(ds[1..]);
      assert ds == [ds[0]] + ds[1..];
    }
  }

  /** With no `FanOut(false)` among the directives, the last flag is on iff
      it started on or some directive switches it on. */
  lemma {:induction false} LastFlagOfOptions(ds: seq<Directive>, dflt: bool)
    requires FanOut(false) !in ds
    ensures LastFlag(ds, dflt) <==> dflt || FanOut(true) in ds
    decreases |ds|
  {
    if ds != [] {
      var init := ds[..|ds| - 1];
      assert ds == init + [ds[|ds| - 1]];
      LastFlagOfOptions(init, dflt);
    }
  }

  /** The whole program: the system rc file, the user rc file, then the
      command line; then every search directory is scanned and the index is
      rendered. */
  function JakobMenu(system: Option<string>, user: Option<string>, home: Option<string>,
                     opts: seq<CliOption>, fs: FileSystem): (r: seq<MenuBlock>)
    ensures forall i, j :: 0 <= i < j < |r| ==> LexLe(r[i].name, r[j].name)
  {
    var ctx := ApplyOptions(ParseBoth(system, user, home), opts, home);
    Render(ScanAll(Empty, fs, ctx.paths, ctx.useAllCategories))
  }

  /** Every accepted entry found in a search directory is listed, with its
      command, in the block of its primary category. */
  lemma EveryEntryListed(system: Option<string>, user: Option<string>, home: Option<string>,
                         opts: seq<CliOption>, fs: FileSystem, e: Entry)
    requires var ctx := ApplyOptions(ParseBoth(system, user, home), opts, home);
             e in FoundAll(fs, ctx.paths)
    ensures exists b :: b in JakobMenu(system, user, home, opts, fs)
                        && b.name == PrimaryCategory(e.categories)
                        && ItemLine(NewItem(e)) in b.items
  {
    var ctx := ApplyOptions(ParseBoth(system, user, home), opts, home);
    var es := FoundAll(fs, ctx.paths);
    var x := PrimaryCategory(e.categories);
    ScanAllFilesFound(Empty, fs, ctx.paths, ctx.useAllCategories);
    AddAllMembers(Empty, es, ctx.useAllCategories, x);
    FiledUnderPrimary(es, e, ctx.useAllCategories);
    var ix := ScanAll(Empty, fs, ctx.paths, ctx.useAllCategories);
    assert MembersOf(Empty, x) == [];
    assert NewItem(e) in MembersOf(ix, x);
    MemberIsRendered(ix, x, NewItem(e));
  }
}
