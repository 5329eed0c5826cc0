/** The Python `str` operations the record mapper relies on, on `seq<char>`. */
module Text {

  /** Characters for which Python's `str.isspace()` holds: what `str.strip()` removes by default. */
  predicate IsSpace(c: char) {
    || ('\t' <= c <= '\r')
    || ('\U{1C}' <= c <= ' ')
    || c == '\U{85}' || c == '\U{A0}' || c == '\U{1680}'
    || ('\U{2000}' <= c <= '\U{200A}')
    || c == '\U{2028}' || c == '\U{2029}' || c == '\U{202F}' || c == '\U{205F}' || c == '\U{3000}'
  }

  // ---------------------------------------------------------------------------
  // strip
  // ---------------------------------------------------------------------------

  /** Removes the leading characters satisfying `drop`. */
  function TrimLeft(s: string, drop: char -> bool): (r: string)
    ensures |r| <= |s| && r == s[|s| - |r|..]
    ensures forall k :: 0 <= k < |s| - |r| ==> drop(s[k])
    ensures r != [] ==> !drop(r[0])
    decreases |s|
  {
    if |s| > 0 && drop(s[0]) then TrimLeft(s[1..], drop) else s
  }

  /** Removes the trailing characters satisfying `drop`. */
  function TrimRight(s: string, drop: char -> bool): (r: string)
    ensures |r| <= |s| && r == s[..|r|]
    ensures forall k :: |r| <= k < |s| ==> drop(s[k])
    ensures r != [] ==> !drop(r[|r| - 1])
    decreases |s|
  {
    if |s| > 0 && drop(s[|s| - 1]) then TrimRight(s[..|s| - 1], drop) else s
  }

  /** Python's `s.strip(chars)`, the set of characters given as a predicate. */
  function StripWhere(s: string, drop: char -> bool): (r: string)
    ensures |r| <= |s|
    ensures forall ch :: ch in r ==> ch in s
    ensures r != [] ==> !drop(r[0]) && !drop(r[|r| - 1])
  {
    TrimRight(TrimLeft(s, drop), drop)
  }

  /** Python's `s.strip()`. */
  function Strip(s: string): (r: string)
    ensures forall ch :: ch in r ==> ch in s
    ensures r != [] ==> !IsSpace(r[0]) && !IsSpace(r[|r| - 1])
  {
    StripWhere(s, IsSpace)
  }

  /** A non-empty string with no whitespace at either end: what `strip()` leaves of a non-blank string. */
  predicate Trimmed(x: string) {
    x != "" && !IsSpace(x[0]) && !IsSpace(x[|x| - 1])
  }

  /** A string whose two ends are kept is its own strip. */
  lemma StripKeepsTrimmed(s: string, drop: char -> bool)
    requires s != [] ==> !drop(s[0]) && !drop(s[|s| - 1])
    ensures StripWhere(s, drop) == s
  {
  }

  /** Stripping twice is stripping once. */
  lemma StripIdempotent(s: string, drop: char -> bool)
    ensures StripWhere(StripWhere(s, drop), drop) == StripWhere(s, drop)
  {
    StripKeepsTrimmed(StripWhere(s, drop), drop);
  }

  /** A string strips to nothing exactly when every character of it is dropped. */
  lemma {:induction false} StripEmptyIff(s: string, drop: char -> bool)
    ensures StripWhere(s, drop) == [] <==> forall k :: 0 <= k < |s| ==> drop(s[k])
  {
    var l := TrimLeft(s, drop);
    if l != [] {
      assert !drop(l[0]);
      assert l[0] == s[|s| - |l|];
    }
  }

  /** Trimming the left of `s + t` trims `s`, and goes on into `t` only when `s` was all dropped. */
  lemma {:induction false} TrimLeftAppend(s: string, t: string, drop: char -> bool)
    ensures TrimLeft(s + t, drop) == if TrimLeft(s, drop) == [] then TrimLeft(t, drop) else TrimLeft(s, drop) + t
    decreases |s|
  {
    if |s| == 0 {
      assert s + t == t;
    } else {
      assert (s + t)[0] == s[0] && (s + t)[1..] == s[1..] + t;
      if drop(s[0]) {
        TrimLeftAppend(s[1..], t, drop);
      }
    }
  }

  /** A dropped character before the text is stripped away with the rest. */
  lemma StripWhereCons(c: char, s: string, drop: char -> bool)
    requires drop(c)
    ensures StripWhere([c] + s, drop) == StripWhere(s, drop)
  {
    assert ([c] + s)[1..] == s;
  }

  /** A dropped character after the text is stripped away with the rest. */
  lemma StripWhereSnoc(s: string, c: char, drop: char -> bool)
    requires drop(c)
    ensures StripWhere(s + [c], drop) == StripWhere(s, drop)
  {
    TrimLeftAppend(s, [c], drop);
    var l := TrimLeft(s, drop);
    if l != [] {
      assert (l + [c])[..|l + [c]| - 1] == l;
    } else {
      assert [c][1..] == [];
    }
  }

  /** A blank before the text is stripped away with the rest of the leading blanks. */
  lemma StripLeadingSpace(s: string)
    ensures Strip(" " + s) == Strip(s)
  {
    assert IsSpace(' ');
    StripWhereCons(' ', s, IsSpace);
  }

  /** A blank after the text is stripped away with the rest of the trailing blanks. */
  lemma StripTrailingSpace(s: string)
    ensures Strip(s + " ") == Strip(s)
  {
    assert IsSpace(' ');
    StripWhereSnoc(s, ' ', IsSpace);
  }

  /** Two trimmed strings joined by a blank are left alone by `strip()`. */
  lemma StripJoinTrimmed(a: string, b: string)
    ensures Trimmed(a) && Trimmed(b) ==> Strip(a + " " + b) == a + " " + b
  {
    if Trimmed(a) && Trimmed(b) {
      var j := a + " " + b;
      assert j[0] == a[0] && j[|j| - 1] == b[|b| - 1];
      StripKeepsTrimmed(j, IsSpace);
    }
  }

  // ---------------------------------------------------------------------------
  // split / join
  // ---------------------------------------------------------------------------

  /** Index of the first occurrence of `c` in `s`. */
  function IndexOf(s: string, c: char): (i: nat)
    requires c in s
    ensures i < |s| && s[i] == c && c !in s[..i]
  {
    if s[0] == c then 0
    else
      var j := IndexOf(s[1..], c);
      assert s[..j + 1] == [s[0]] + s[1..][..j];
      j + 1
  }

  /** Python's `s.split(c)` for a one-character separator: every piece, empty ones included. */
  function Split(s: string, c: char): (parts: seq<string>)
    ensures |parts| >= 1
    ensures forall i :: 0 <= i < |parts| ==> c !in parts[i]
    ensures |parts| == 1 <==> c !in s
    decreases |s|
  {
    if c !in s then [s]
    else
      var i := IndexOf(s, c);
      [s[..i]] + Split(s[i + 1..], c)
  }

  /** Python's `sep.join(xs)`. */
  function Join(sep: string, xs: seq<string>): string
  {
    if |xs| == 0 then ""
    else if |xs| == 1 then xs[0]
    else xs[0] + sep + Join(sep, xs[1..])
  }

  lemma JoinCons(sep: string, x: string, rest: seq<string>)
    requires |rest| >= 1
    ensures Join(sep, [x] + rest) == x + sep + Join(sep, rest)
  {
    assert ([x] + rest)[1..] == rest;
  }

  /** Appending one more part adds the separator and the part at the end. */
  lemma {:induction false} JoinSnoc(sep: string, xs: seq<string>, y: string)
    requires |xs| >= 1
    ensures Join(sep, xs + [y]) == Join(sep, xs) + sep + y
    decreases |xs|
  {
    if |xs| > 1 {
      assert (xs + [y])[1..] == xs[1..] + [y];
      JoinSnoc(sep, xs[1..], y);
    } else {
      assert xs + [y] == [xs[0], y];
    }
  }

  lemma SplitUnfold(s: string, c: char)
    requires c in s
    ensures var i := IndexOf(s, c);
            Split(s, c) == [s[..i]] + Split(s[i + 1..], c) && s == s[..i] + [c] + s[i + 1..]
  {
    var i := IndexOf(s, c);
    assert s == s[..i] + [c] + s[i + 1..];
  }

  /** Joining the pieces of a split with the separator gives the original string back. */
  lemma {:induction false} JoinSplit(s: string, c: char)
    ensures Join([c], Split(s, c)) == s
    decreases |s|
  {
    if c in s {
      var i := IndexOf(s, c);
      SplitUnfold(s, c);
      JoinSplit(s[i + 1..], c);
      JoinCons([c], s[..i], Split(s[i + 1..], c));
    }
  }

  lemma IndexOfAfterPrefix(a: string, c: char, b: string)
    requires c !in a
    ensures c in a + [c] + b && IndexOf(a + [c] + b, c) == |a|
  {
    var s := a + [c] + b;
    assert s[|a|] == c;
    assert s[..|a|] == a;
  }

  /** Splitting a join of separator-free pieces gives the pieces back. */
  lemma {:induction false} SplitJoin(xs: seq<string>, c: char)
    requires |xs| >= 1
    requires forall i :: 0 <= i < |xs| ==> c !in xs[i]
    ensures Split(Join([c], xs), c) == xs
    decreases |xs|
  {
    if |xs| > 1 {
      var tail := Join([c], xs[1..]);
      assert Join([c], xs) == xs[0] + [c] + tail;
      IndexOfAfterPrefix(xs[0], c, tail);
      var s := xs[0] + [c] + tail;
      assert s[..|xs[0]|] == xs[0];
      assert s[|xs[0]| + 1..] == tail;
      SplitJoin(xs[1..], c);
    }
  }

  /** A join of pieces without `c` around a separator without `c` has no `c`. */
  lemma {:induction false} JoinAvoids(sep: string, xs: seq<string>, c: char)
    requires c !in sep
    requires forall i :: 0 <= i < |xs| ==> c !in xs[i]
    ensures c !in Join(sep, xs)
    decreases |xs|
  {
    if |xs| > 1 {
      JoinAvoids(sep, xs[1..], c);
    }
  }

  // ---------------------------------------------------------------------------
  // substring search, case mapping, replace
  // ---------------------------------------------------------------------------

  predicate IsPrefix(t: string, s: string) {
    |t| <= |s| && s[..|t|] == t
  }

  /** Python's `t in s` on strings. */
  predicate Contains(s: string, t: string)
    decreases |s|
  {
    IsPrefix(t, s) || (|s| > 0 && Contains(s[1..], t))
  }

  /** A string contains any of its suffixes. */
  lemma {:induction false} ContainsSuffix(a: string, t: string)
    ensures Contains(a + t, t)
    decreases |a|
  {
    if a != [] {
      assert (a + t)[1..] == a[1..] + t;
      ContainsSuffix(a[1..], t);
    }
  }

  /** A string shorter than `t` does not contain it. */
  lemma {:induction false} ShorterLacks(s: string, t: string)
    requires |s| < |t|
    ensures !Contains(s, t)
    decreases |s|
  {
    if |s| > 0 {
      ShorterLacks(s[1..], t);
    }
  }

  /** ASCII part of Python's `str.lower()` on one character. */
  function AsciiLower(c: char): char {
    if 'A' <= c <= 'Z' then (c as int + 32) as char else c
  }

  /** ASCII part of Python's `str.upper()` on one character. */
  function AsciiUpper(c: char): char {
    if 'a' <= c <= 'z' then (c as int - 32) as char else c
  }

  function Lower(s: string): (r: string)
    ensures |r| == |s|
  {
    seq(|s|, i requires 0 <= i < |s| => AsciiLower(s[i]))
  }

  function Upper(s: string): (r: string)
    ensures |r| == |s|
  {
    seq(|s|, i requires 0 <= i < |s| => AsciiUpper(s[i]))
  }

  lemma LowerAppend(a: string, b: string)
    ensures Lower(a + b) == Lower(a) + Lower(b)
  {
  }

  /** Python's `s.replace(pat, rep)`: leftmost, non-overlapping occurrences, scanned left to right. */
  function Replace(s: string, pat: string, rep: string): string
    requires |pat| > 0
    decreases |s|
  {
    if |s| == 0 then ""
    else if IsPrefix(pat, s) then rep + Replace(s[|pat|..], pat, rep)
    else [s[0]] + Replace(s[1..], pat, rep)
  }

  /** Replacing a pattern that does not occur changes nothing. */
  lemma {:induction false} ReplaceAbsent(s: string, pat: string, rep: string)
    requires |pat| > 0
    requires !Contains(s, pat)
    ensures Replace(s, pat, rep) == s
    decreases |s|
  {
    if |s| > 0 {
      ReplaceAbsent(s[1..], pat, rep);
    }
  }

  /** After `replace("||", "; ")` no double bar is left, and a bar at the front comes from a lone bar. */
  lemma {:induction false} ReplaceBarsLeavesNone(s: string)
    ensures !Contains(Replace(s, "||", "; "), "||")
    ensures var r := Replace(s, "||", "; ");
            r != [] && r[0] == '|' ==> s[0] == '|' && (|s| == 1 || s[1] != '|')
    decreases |s|
  {
    var r := Replace(s, "||", "; ");
    if |s| == 0 {
    } else if IsPrefix("||", s) {
      ReplaceBarsLeavesNone(s[2..]);
      var t := Replace(s[2..], "||", "; ");
      assert r == "; " + t;
      assert r[1..] == " " + t;
      assert r[1..][1..] == t;
    } else {
      ReplaceBarsLeavesNone(s[1..]);
      var t := Replace(s[1..], "||", "; ");
      assert r == [s[0]] + t;
      assert r[1..] == t;
      if s[0] == '|' && |s| > 1 {
        assert s[1] != '|' by { assert s[..2] != "||"; }
      }
    }
  }
}
