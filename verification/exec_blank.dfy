/** Exec placeholder blanking in `parseDotDesktop` (jakobmenu.c): the field
    codes `%U`, `%u`, `%F` and `%f` name arguments a menu launcher cannot
    supply, so each occurrence is overwritten with two spaces. The C code
    does it with four `strstr` loops, one per code; `BlankExec` follows those
    loops and `BlankPlaceholders` is the one-pass definition they agree with. */
module ExecBlanking {
  import opened Wrappers

  /** The letters that follow `%` in a blanked field code. */
  predicate PlaceholderLetter(c: char) {
    c == 'U' || c == 'u' || c == 'F' || c == 'f'
  }

  /** A field code `%` + `letter` starts at position `i` of `s`. */
  predicate IsToken(s: string, i: int, letter: char) {
    0 <= i && i + 1 < |s| && s[i] == '%' && s[i + 1] == letter
  }

  /** Any of the four field codes starts at position `i`. */
  predicate IsPlaceholder(s: string, i: int) {
    0 <= i && i + 1 < |s| && s[i] == '%' && PlaceholderLetter(s[i + 1])
  }

  /** Position `j` belongs to a field code: it is its `%` or its letter. */
  predicate Covered(s: string, j: int) {
    IsPlaceholder(s, j) || IsPlaceholder(s, j - 1)
  }

  /** Position `j` belongs to an occurrence of `%` + `letter`. */
  predicate CoveredBy(s: string, j: int, letter: char) {
    IsToken(s, j, letter) || IsToken(s, j - 1, letter)
  }

  /** A left-to-right pass that turns each field code into two spaces. The
      result has the length of `s`; a position is a space exactly when it
      belongs to a field code of `s`, and holds its old character otherwise. */
  function BlankPlaceholders(s: string): (r: string)
    ensures |r| == |s|
    ensures forall j :: 0 <= j < |s| ==> r[j] == (if Covered(s, j) then ' ' else s[j])
    ensures forall i :: !IsPlaceholder(r, i)
    decreases |s|
  {
    if s == [] then []
    else if IsPlaceholder(s, 0) then
      var t := BlankPlaceholders(s[2..]);
      assert forall j :: 2 <= j < |s| ==> (Covered(s, j) <==> Covered(s[2..], j - 2));
      "  " + t
    else
      var t := BlankPlaceholders(s[1..]);
      assert forall j :: 1 <= j < |s| ==> (Covered(s, j) <==> Covered(s[1..], j - 1));
      [s[0]] + t
  }

  /** Blanking twice is blanking once. */
  lemma BlankIdempotent(s: string)
    ensures BlankPlaceholders(BlankPlaceholders(s)) == BlankPlaceholders(s)
  {
    var r := BlankPlaceholders(s);
    assert forall j :: 0 <= j < |r| ==> !Covered(r, j);
  }

  /** A command without `%` is left alone. */
  lemma NoPercentUnchanged(s: string)
    requires '%' !in s
    ensures BlankPlaceholders(s) == s
  {
  }

  /** `strstr(s, "%" + letter)`: the first occurrence of the two-character
      code, if any. */
  function FindToken(s: string, letter: char): (r: Option<nat>)
    ensures r.None? <==> forall i :: !IsToken(s, i, letter)
    ensures r.Some? ==> IsToken(s, r.value, letter) && forall i :: 0 <= i < r.value ==> !IsToken(s, i, letter)
    decreases |s|
  {
    if |s| < 2 then None
    else if IsToken(s, 0, letter) then Some(0)
    else
      var t := FindToken(s[1..], letter);
      assert forall i :: 1 <= i ==> (IsToken(s, i, letter) <==> IsToken(s[1..], i - 1, letter));
      match t
      case None => None
      case Some(i) =>
        assert IsToken(s, i + 1, letter);
        Some(i + 1)
  }

  /** One `while((ss = strstr(Exec, "%X")) != NULL)` loop: overwrites the
      first occurrence with two spaces until none is left. Every occurrence
      in the input ends up blank and every other position keeps its
      character. */
  method BlankToken(s: string, letter: char) returns (r: string)
    requires letter != '%' && letter != ' '
    ensures |r| == |s|
    ensures forall j :: 0 <= j < |s| ==> r[j] == (if CoveredBy(s, j, letter) then ' ' else s[j])
  {
    r := s;
    while true
      invariant |r| == |s|
      invariant OnlyBlanked(s, r, letter) && TokensKeptOrBlanked(s, r, letter)
      decreases multiset(r)['%']
    {
      match FindToken(r, letter)
      case None =>
        break;
      case Some(i) =>
        var next := r[i := ' '][i + 1 := ' '];
        BlankStep(s, r, i, letter);
        r := next;
    }
  }

  /** Every position of `r` either keeps its character from `s` or is a
      blank inside an occurrence of the field code in `s`. */
  predicate OnlyBlanked(s: string, r: string, letter: char)
    requires |r| == |s|
  {
    forall j :: 0 <= j < |s| ==> r[j] == s[j] || (r[j] == ' ' && CoveredBy(s, j, letter))
  }

  /** Every occurrence of the field code in `s` is still there in `r` or has
      been overwritten with two spaces. */
  predicate TokensKeptOrBlanked(s: string, r: string, letter: char)
    requires |r| == |s|
  {
    forall k :: 0 <= k < |s| && IsToken(s, k, letter) ==> IsToken(r, k, letter) || (r[k] == ' ' && r[k + 1] == ' ')
  }

  /** One iteration of the `strstr` loop keeps its invariant and removes
      a `%`. */
  lemma BlankStep(s: string, r: string, i: nat, letter: char)
    requires letter != '%' && letter != ' '
    requires |r| == |s|
    requires OnlyBlanked(s, r, letter) && TokensKeptOrBlanked(s, r, letter)
    requires IsToken(r, i, letter)
    ensures OnlyBlanked(s, r[i := ' '][i + 1 := ' '], letter)
    ensures TokensKeptOrBlanked(s, r[i := ' '][i + 1 := ' '], letter)
    ensures multiset(r[i := ' '][i + 1 := ' '])['%'] < multiset(r)['%']
  {
    assert r[i] == '%' && s[i] == '%' && s[i + 1] == letter;
    assert IsToken(s, i, letter);
    var next := r[i := ' '][i + 1 := ' '];
    forall k | IsToken(s, k, letter)
      ensures IsToken(next, k, letter) || (next[k] == ' ' && next[k + 1] == ' ')
    {
      if k != i && IsToken(r, k, letter) {
        assert k + 1 != i && k != i + 1;
      }
    }
    assert multiset(next)['%'] < multiset(r)['%'] by {
      assert multiset(r[i := ' '])['%'] == multiset(r)['%'] - 1;
    }
  }

  /** The four loops of the C code, one per field code, agree with the
      one-pass definition. */
  method BlankExec(exec: string) returns (r: string)
    ensures r == BlankPlaceholders(exec)
  {
    var a := BlankToken(exec, 'U');
    var b := BlankToken(a, 'u');
    var c := BlankToken(b, 'F');
    r := BlankToken(c, 'f');
    forall j | 0 <= j < |exec|
      ensures r[j] == BlankPlaceholders(exec)[j]
    {
      PassesAgree(exec, a, b, c, r, j);
    }
  }

  lemma PassesAgree(s: string, a: string, b: string, c: string, r: string, j: int)
    requires |a| == |b| == |c| == |r| == |s|
    requires forall k :: 0 <= k < |s| ==> a[k] == (if CoveredBy(s, k, 'U') then ' ' else s[k])
    requires forall k :: 0 <= k < |s| ==> b[k] == (if CoveredBy(a, k, 'u') then ' ' else a[k])
    requires forall k :: 0 <= k < |s| ==> c[k] == (if CoveredBy(b, k, 'F') then ' ' else b[k])
    requires forall k :: 0 <= k < |s| ==> r[k] == (if CoveredBy(c, k, 'f') then ' ' else c[k])
    requires 0 <= j < |s|
    ensures r[j] == (if Covered(s, j) then ' ' else s[j])
  {
    if 0 < j {
      assert 0 <= j - 1;
    }
  }

  /** The `firefox %U` example: the code is blanked and the length kept. */
  lemma FirefoxExample()
    ensures BlankPlaceholders("firefox %U") == "firefox   "
  {
    var s := "firefox %U";
    assert IsPlaceholder(s, 8);
    assert forall j :: 0 <= j < 8 ==> !Covered(s, j);
  }
}
