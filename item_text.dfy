/**
 * The text of an entry in the list of found environments. The window shows
 * each `(project_name, path)` as `project_name + " (" + path + ")"`, and a
 * click recovers the pair with `text.split(" (")`, a two-name unpacking and
 * `path.rstrip(")")`.
 */
module ItemText {
  import opened Wrappers

  /** Why the text of a clicked item cannot be taken apart. */
  datatype ParseError =
    | UnpackMismatch(parts: nat)  // `ValueError` of the two-name unpacking
    | NoSeparator
    | NoClosingParen

  /** `s` contains the separator `" ("`. */
  predicate HasSep(s: string)
  {
    exists i :: 0 <= i < |s| - 1 && s[i] == ' ' && s[i + 1] == '('
  }

  /** The number of occurrences of `" ("` in `s` (they cannot overlap). */
  function CountSep(s: string): nat
    decreases |s|
  {
    if |s| < 2 then 0
    else if s[0] == ' ' && s[1] == '(' then 1 + CountSep(s[2..])
    else CountSep(s[1..])
  }

  /** `" (".join(parts)`. */
  function JoinSep(parts: seq<string>): string
    requires |parts| >= 1
    decreases |parts|
  {
    if |parts| == 1 then parts[0] else parts[0] + " (" + JoinSep(parts[1..])
  }

  /**
   * `s.split(" (")`: the pieces between the occurrences of the separator,
   * found left to right. Joining them again gives `s` back, no piece holds
   * the separator, and there is one more piece than occurrences.
   */
  function Split(s: string): (parts: seq<string>)
    ensures |parts| == CountSep(s) + 1
    ensures JoinSep(parts) == s
    ensures forall i :: 0 <= i < |parts| ==> !HasSep(parts[i])
    ensures |parts[0]| <= |s| && parts[0] == s[..|parts[0]|]
    decreases |s|
  {
    if |s| < 2 then
      [s]
    else if s[0] == ' ' && s[1] == '(' then
      var rest := Split(s[2..]);
      assert ([""] + rest)[1..] == rest;
      [""] + rest
    else
      var rest := Split(s[1..]);
      var first := [s[0]] + rest[0];
      ConsNoSep(s[0], rest[0]);
      JoinSepCons(s[0], rest);
      [first] + rest[1..]
  }

  /** A character put before a piece without the separator makes none, unless it is `' '` before `'('`. */
  lemma {:induction false} ConsNoSep(c: char, t: string)
    requires !HasSep(t)
    requires !(c == ' ' && t != [] && t[0] == '(')
    ensures !HasSep([c] + t)
  {
    var u := [c] + t;
    forall i | 0 <= i < |u| - 1
      ensures !(u[i] == ' ' && u[i + 1] == '(')
    {
      if i > 0 {
        assert u[i] == t[i - 1] && u[i + 1] == t[i];
      }
    }
  }

  /** Putting a character before the first piece puts it before the joined text. */
  lemma {:induction false} JoinSepCons(c: char, parts: seq<string>)
    requires |parts| >= 1
    ensures JoinSep([[c] + parts[0]] + parts[1..]) == [c] + JoinSep(parts)
  {
    var parts' := [[c] + parts[0]] + parts[1..];
    assert parts'[1..] == parts[1..];
  }

  /** `rstrip(")")`: `s` without all of its trailing closing parentheses. */
  function RStripParen(s: string): (r: string)
    ensures |r| <= |s| && r == s[..|r|]
    ensures r == [] || r[|r| - 1] != ')'
    ensures forall i :: |r| <= i < |s| ==> s[i] == ')'
    decreases |s|
  {
    if s != [] && s[|s| - 1] == ')' then RStripParen(s[..|s| - 1]) else s
  }

  predicate EndsWithParen(s: string)
  {
    s != [] && s[|s| - 1] == ')'
  }

  /**
   * The item text `f"{project_name} ({path})"`: the name, then the
   * separator, so every item text holds `" ("` and ends in `)`.
   */
  function Format(projectName: string, path: string): (r: string)
    ensures |r| == |projectName| + |path| + 3 && r[..|projectName|] == projectName
    ensures HasSep(r) && EndsWithParen(r)
  {
    var r := projectName + " (" + path + ")";
    assert r[|projectName|] == ' ' && r[|projectName| + 1] == '(';
    r
  }

  /**
   * The click handler's parse, as written: the unpacking fails unless the
   * text holds the separator exactly once; otherwise the project name is
   * the text before it, and the path is the rest with every trailing `)`
   * removed.
   */
  function Parse(text: string): (r: Result<(string, string), ParseError>)
    ensures r.Success? <==> CountSep(text) == 1
    ensures r.Failure? ==> r.error == UnpackMismatch(CountSep(text) + 1)
    ensures r.Success? ==>
      var (name, path) := r.value;
      && !HasSep(name)
      && |name| + 2 <= |text| && text[..|name|] == name && text[|name|..|name| + 2] == " ("
      && !EndsWithParen(path)
      && |name| + 2 + |path| <= |text| && text[|name| + 2..|name| + 2 + |path|] == path
      && forall i :: |name| + 2 + |path| <= i < |text| ==> text[i] == ')'
  {
    var parts := Split(text);
    if |parts| != 2 then
      Failure(UnpackMismatch(|parts|))
    else
      assert text == parts[0] + " (" + parts[1] by {
        assert JoinSep(parts[1..]) == parts[1];
      }
      var path := RStripParen(parts[1]);
      assert text[|parts[0]| + 2..] == parts[1];
      Success((parts[0], path))
  }

  /** The first occurrence of `" ("` is at the end of `n` when `n` holds none. */
  lemma {:induction false} SplitAround(n: string, q: string)
    requires !HasSep(n)
    ensures Split(n + " (" + q) == [n] + Split(q)
    decreases |n|
  {
    var s := n + " (" + q;
    if n == [] {
      assert s == " (" + q && s[2..] == q;
    } else {
      assert s[1..] == n[1..] + " (" + q;
      assert !HasSep(n[1..]) by {
        forall i | 0 <= i < |n[1..]| - 1
          ensures !(n[1..][i] == ' ' && n[1..][i + 1] == '(')
        {
          assert n[1..][i] == n[i + 1] && n[1..][i + 1] == n[i + 2];
        }
      }
      assert !(s[0] == ' ' && s[1] == '(') by {
        if |n| >= 2 {
          assert s[0] == n[0] && s[1] == n[1];
        } else {
          assert s[1] == ' ';
        }
      }
      SplitAround(n[1..], q);
      assert [s[0]] + n[1..] == n;
    }
  }

  /** A text without the separator splits into itself alone. */
  lemma {:induction false} SplitWhole(q: string)
    requires !HasSep(q)
    ensures Split(q) == [q]
  {
    assert CountSep(q) == 0 by {
      CountSepHasSep(q);
    }
    assert JoinSep(Split(q)) == Split(q)[0];
  }

  /** `CountSep` counts exactly the occurrences `HasSep` looks for. */
  lemma {:induction false} CountSepHasSep(s: string)
    ensures CountSep(s) > 0 <==> HasSep(s)
    decreases |s|
  {
    if |s| >= 2 {
      if s[0] == ' ' && s[1] == '(' {
        assert HasSep(s) by { assert s[0] == ' ' && s[1] == '('; }
      } else {
        CountSepHasSep(s[1..]);
        if HasSep(s) {
          var i :| 0 <= i < |s| - 1 && s[i] == ' ' && s[i + 1] == '(';
          assert i != 0;
          assert s[1..][i - 1] == ' ' && s[1..][i] == '(';
        }
        if HasSep(s[1..]) {
          var i :| 0 <= i < |s[1..]| - 1 && s[1..][i] == ' ' && s[1..][i + 1] == '(';
          assert s[i + 1] == ' ' && s[i + 2] == '(';
        }
      }
    } else {
      assert !HasSep(s);
    }
  }

  /** A closing parenthesis at the end never creates a separator. */
  lemma {:induction false} HasSepCloseParen(p: string)
    ensures HasSep(p + ")") <==> HasSep(p)
  {
    var s := p + ")";
    if HasSep(s) {
      var i :| 0 <= i < |s| - 1 && s[i] == ' ' && s[i + 1] == '(';
      assert i + 1 < |p|;
      assert p[i] == ' ' && p[i + 1] == '(';
    }
    if HasSep(p) {
      var i :| 0 <= i < |p| - 1 && p[i] == ' ' && p[i + 1] == '(';
      assert s[i] == ' ' && s[i + 1] == '(';
    }
  }

  /** The separator's occurrences add up across the one `Format` inserts. */
  lemma {:induction false} CountSepAround(n: string, q: string)
    ensures CountSep(n + " (" + q) == CountSep(n) + 1 + CountSep(q)
    decreases |n|
  {
    var s := n + " (" + q;
    if n == [] {
      assert s == " (" + q && s[2..] == q;
    } else if |n| >= 2 && n[0] == ' ' && n[1] == '(' {
      assert s[0] == ' ' && s[1] == '(';
      assert s[2..] == n[2..] + " (" + q;
      CountSepAround(n[2..], q);
    } else {
      assert !(s[0] == ' ' && s[1] == '(') by {
        if |n| >= 2 {
          assert s[0] == n[0] && s[1] == n[1];
        } else {
          assert s[1] == ' ';
        }
      }
      assert s[1..] == n[1..] + " (" + q;
      CountSepAround(n[1..], q);
    }
  }

  /**
   * Round trip: a pair whose name and path hold no `" ("` and whose path
   * does not end in `)` comes back unchanged from the text of its item.
   */
  lemma {:induction false} ParseFormat(name: string, path: string)
    requires !HasSep(name) && !HasSep(path) && !EndsWithParen(path)
    ensures Parse(Format(name, path)) == Success((name, path))
  {
    var q := path + ")";
    assert Format(name, path) == name + " (" + q;
    HasSepCloseParen(path);
    SplitAround(name, q);
    SplitWhole(q);
    var r := RStripParen(q);
    assert |path| > 0 ==> q[|path| - 1] == path[|path| - 1] != ')';
    assert |r| == |path|;
  }

  /**
   * The parse as written succeeds on an item's text exactly when neither the
   * name nor the path holds `" ("`, and then returns the path stripped of
   * every trailing `)`: a path ending in `)` does not come back.
   */
  lemma {:induction false} FormatParsesIff(name: string, path: string)
    ensures Parse(Format(name, path)).Success? <==> !HasSep(name) && !HasSep(path)
    ensures Parse(Format(name, path)).Success? ==>
      Parse(Format(name, path)).value == (name, RStripParen(path))
    ensures Parse(Format(name, path)).Success? && EndsWithParen(path) ==>
      Parse(Format(name, path)).value.1 != path
  {
    var q := path + ")";
    assert Format(name, path) == name + " (" + q;
    CountSepAround(name, q);
    CountSepHasSep(name);
    CountSepHasSep(q);
    HasSepCloseParen(path);
    if !HasSep(name) && !HasSep(path) {
      SplitAround(name, q);
      SplitWhole(q);
      assert q[..|path|] == path;
      assert RStripParen(q) == RStripParen(path);
    }
  }

  // ---------------------------------------------------------------------
  // The corrected parse
  // ---------------------------------------------------------------------

  /**
   * `s.partition(" (")` when the separator occurs: the text before its first
   * occurrence and the text after it.
   */
  function SplitFirst(s: string): (r: Option<(string, string)>)
    ensures r.None? <==> !HasSep(s)
    ensures r.Some? ==> s == r.value.0 + " (" + r.value.1 && !HasSep(r.value.0)
    decreases |s|
  {
    if |s| < 2 then
      assert !HasSep(s);
      None
    else if s[0] == ' ' && s[1] == '(' then
      assert HasSep(s) by { assert s[0] == ' ' && s[1] == '('; }
      Some(("", s[2..]))
    else
      var rest := SplitFirst(s[1..]);
      assert HasSep(s) <==> HasSep(s[1..]) by {
        if HasSep(s) {
          var i :| 0 <= i < |s| - 1 && s[i] == ' ' && s[i + 1] == '(';
          assert s[1..][i - 1] == ' ' && s[1..][i] == '(';
        }
        if HasSep(s[1..]) {
          var i :| 0 <= i < |s[1..]| - 1 && s[1..][i] == ' ' && s[1..][i + 1] == '(';
          assert s[i + 1] == ' ' && s[i + 2] == '(';
        }
      }
      match rest
      case None => None
      case Some((a, b)) =>
        var first := [s[0]] + a;
        assert !HasSep(first) by {
          forall i | 0 <= i < |first| - 1
            ensures !(first[i] == ' ' && first[i + 1] == '(')
          {
            if i == 0 {
              assert first[1] == s[1];
            } else {
              assert first[i] == a[i - 1] && first[i + 1] == a[i];
            }
          }
        }
        Some((first, b))
  }

  lemma {:induction false} SplitFirstAround(n: string, q: string)
    requires !HasSep(n)
    ensures SplitFirst(n + " (" + q) == Some((n, q))
    decreases |n|
  {
    var s := n + " (" + q;
    if n == [] {
      assert s == " (" + q && s[2..] == q;
    } else {
      assert s[1..] == n[1..] + " (" + q;
      assert !HasSep(n[1..]) by {
        forall i | 0 <= i < |n[1..]| - 1
          ensures !(n[1..][i] == ' ' && n[1..][i + 1] == '(')
        {
          assert n[1..][i] == n[i + 1] && n[1..][i + 1] == n[i + 2];
        }
      }
      assert !(s[0] == ' ' && s[1] == '(') by {
        if |n| >= 2 {
          assert s[0] == n[0] && s[1] == n[1];
        } else {
          assert s[1] == ' ';
        }
      }
      SplitFirstAround(n[1..], q);
      assert [s[0]] + n[1..] == n;
    }
  }

  /**
   * The parse the click handler needs: split at the first `" ("` only and
   * drop exactly the one `)` the format appended.
   */
  function ParseCorrected(text: string): (r: Result<(string, string), ParseError>)
    ensures r.Success? ==> Format(r.value.0, r.value.1) == text && !HasSep(r.value.0)
    ensures r.Failure? <==> !HasSep(text) || !EndsWithParen(text)
  {
    match SplitFirst(text)
    case None => Failure(NoSeparator)
    case Some((name, rest)) =>
      if EndsWithParen(rest) then
        assert rest == rest[..|rest| - 1] + ")";
        Success((name, rest[..|rest| - 1]))
      else
        assert rest != [] ==> text[|text| - 1] == rest[|rest| - 1];
        Failure(NoClosingParen)
  }

  /**
   * The corrected parse inverts `Format` for every path, including paths
   * that hold `" ("` or end in `)`, as long as the project name holds no
   * `" ("`.
   */
  lemma {:induction false} ParseCorrectedFormat(name: string, path: string)
    requires !HasSep(name)
    ensures ParseCorrected(Format(name, path)) == Success((name, path))
  {
    var q := path + ")";
    assert Format(name, path) == name + " (" + q;
    SplitFirstAround(name, q);
    assert q[..|q| - 1] == path;
  }
}
