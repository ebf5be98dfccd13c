/** Tilde expansion, `expand` in jakobmenu.c. `$HOME` is a parameter:
    `None` when the variable is unset.

    The code as written reads outside its strings in two cases: for the bare
    path `~` it continues two bytes in, past the terminator, and for an
    empty `$HOME` it reads the byte before the string. `ExpandAsWritten`
    records those cases as `ReadsOutOfBounds`; `Expand` is the corrected
    function the rest of the model uses. */
module Tilde {
  import opened Wrappers
  import opened Text

  datatype Outcome = Expanded(path: string) | NoPath | HomeUnset | ReadsOutOfBounds

  /** The paths the tilde branch of `expand` takes: `~` alone or `~/...`. */
  predicate TildePrefixed(path: string) {
    |path| >= 1 && path[0] == '~' && (|path| == 1 || path[1] == '/')
  }

  /** `expand` exactly as the C code behaves, undefined reads included. */
  function ExpandAsWritten(path: string, home: Option<string>): (r: Outcome)
    ensures r == NoPath <==> path == []
    ensures r == HomeUnset <==> TildePrefixed(path) && home.None?
    ensures r == ReadsOutOfBounds <==> TildePrefixed(path) && home.Some? && (home.value == [] || |path| == 1)
    ensures r.Expanded? && TildePrefixed(path) ==> r.path == home.value + Separator(home.value) + path[2..]
    ensures !TildePrefixed(path) && path != [] ==> r == Expanded(path)
  {
    if path == [] then NoPath
    else if TildePrefixed(path) then
      match home
      case None => HomeUnset
      case Some(h) =>
        if h == [] then ReadsOutOfBounds            // home[homeLen - 1] with homeLen == 0
        else if |path| == 1 then ReadsOutOfBounds   // path + 2 is past the terminator
        else Expanded(h + Separator(h) + path[2..])
    else Expanded(path)
  }

  /** `expand` with both reads kept in bounds: a bare `~` is `$HOME` with the
      separator appended, and an empty `$HOME` is treated as not ending in
      `/`. An empty path and an unset `$HOME` give no path; every other path
      is returned unchanged. */
  function Expand(path: string, home: Option<string>): (r: Option<string>)
    ensures r.None? <==> path == [] || (TildePrefixed(path) && home.None?)
    ensures r.Some? && TildePrefixed(path) ==>
              r.value == home.value + Separator(home.value) + (if |path| == 1 then "" else path[2..])
    ensures r.Some? && !TildePrefixed(path) ==> r.value == path
  {
    if path == [] then None
    else if TildePrefixed(path) then
      match home
      case None => None
      case Some(h) =>
        Some(h + Separator(h) + TildeRest(path))
    else Some(path)
  }

  /** What follows `~/`, or nothing for a bare `~`. */
  function TildeRest(path: string): string
    requires TildePrefixed(path)
  {
    if |path| == 1 then [] else path[2..]
  }

  /** Wherever the code as written stays in bounds, the corrected function
      agrees with it. */
  lemma ExpandAgreesWithCode(path: string, home: Option<string>)
    requires ExpandAsWritten(path, home) != ReadsOutOfBounds
    ensures Expand(path, home) == (match ExpandAsWritten(path, home)
                                   case Expanded(p) => Some(p)
                                   case _ => None)
  {
  }

  /** Expanding `~/rest` never doubles the slash and never drops it. */
  lemma ExpandJoinsWithOneSlash(rest: string, home: string)
    requires home != []
    ensures Expand("~/" + rest, Some(home)) == Some(TrimOneSlash(home) + "/" + rest)
  {
    var path := "~/" + rest;
    assert TildePrefixed(path);
    assert path[2..] == rest;
    if EndsWith(home, "/") {
      assert home == home[..|home| - 1] + "/";
      assert home + "" + rest == home[..|home| - 1] + "/" + rest;
    }
  }

  /** The case the code reads past the terminator of `~`, and the value the
      corrected function gives for it. */
  lemma BareTildeReadsPastTerminator()
    ensures ExpandAsWritten("~", Some("/home/u")) == ReadsOutOfBounds
    ensures Expand("~", Some("/home/u")) == Some("/home/u/")
  {
    assert "/home/u"[|"/home/u"| - 1..] == "u";
    assert Separator("/home/u") == "/";
    assert TildePrefixed("~") && TildeRest("~") == [];
    assert "/home/u" + "/" + [] == "/home/u/";
  }

  /** The case the code reads the byte before an empty `$HOME`, and the
      value the corrected function gives for it. */
  lemma EmptyHomeReadsBeforeString()
    ensures ExpandAsWritten("~/apps", Some("")) == ReadsOutOfBounds
    ensures Expand("~/apps", Some("")) == Some("/apps")
  {
    assert "~/apps"[2..] == "apps";
    assert Separator("") == "/";
    assert TildePrefixed("~/apps") && TildeRest("~/apps") == "apps";
    assert "" + "/" + "apps" == "/apps";
  }

  /** The tilde example: `~/Desktop` with `$HOME` = `/home/u`. */
  lemma ExpandDesktopExample()
    ensures Expand("~/Desktop", Some("/home/u")) == Some("/home/u/Desktop")
    ensures Expand("~/Desktop", None) == None
    ensures Expand("/usr/share/applications", None) == Some("/usr/share/applications")
  {
    assert "~/Desktop"[2..] == "Desktop";
    assert "/home/u"[|"/home/u"| - 1..] == "u";
    assert Separator("/home/u") == "/";
    assert TildePrefixed("~/Desktop") && TildeRest("~/Desktop") == "Desktop";
    assert "/home/u" + "/" + "Desktop" == "/home/u/Desktop";
  }
}
