/**
 The Python string operations the checks rely on, over `string` (sequences of
 Unicode scalar values): `str.strip`, `str.split()` with no separator,
 `str.splitlines()`, a digits-only `int()`, `str(n)` for naturals and an
 ASCII `str.title()`.
 */
module Text {
  import opened Results

  /** The characters for which Python's `str.isspace()` holds. */
  const Whitespace: set<char> := {
    '\t', '\n', '\U{000B}', '\U{000C}', '\r',
    '\U{001C}', '\U{001D}', '\U{001E}', '\U{001F}', ' ',
    '\U{0085}', '\U{00A0}', '\U{1680}',
    '\U{2000}', '\U{2001}', '\U{2002}', '\U{2003}', '\U{2004}', '\U{2005}',
    '\U{2006}', '\U{2007}', '\U{2008}', '\U{2009}', '\U{200A}',
    '\U{2028}', '\U{2029}', '\U{202F}', '\U{205F}', '\U{3000}'
  }

  /** The characters at which Python's `str.splitlines()` ends a line ("\r\n" ends one line too). */
  const LineBreaks: set<char> := {
    '\n', '\r', '\U{000B}', '\U{000C}', '\U{001C}', '\U{001D}', '\U{001E}',
    '\U{0085}', '\U{2028}', '\U{2029}'
  }

  /** No character of s belongs to cs. */
  predicate NoneIn(s: string, cs: set<char>) {
    forall k :: 0 <= k < |s| ==> s[k] !in cs
  }

  /** Every character of s belongs to cs. */
  predicate AllIn(s: string, cs: set<char>) {
    forall k :: 0 <= k < |s| ==> s[k] in cs
  }

  lemma LineBreaksAreWhitespace()
    ensures LineBreaks <= Whitespace
  {
  }

  // ---------------------------------------------------------------- strip

  /** s without its longest prefix of characters from cs (Python's `lstrip(cs)`). */
  function TrimLeft(s: string, cs: set<char>): (r: string)
    ensures |r| <= |s| && r == s[|s| - |r|..]
    ensures forall k :: 0 <= k < |s| - |r| ==> s[k] in cs
    ensures |r| > 0 ==> r[0] !in cs
    decreases |s|
  {
    if |s| > 0 && s[0] in cs then
      var r := TrimLeft(s[1..], cs);
      assert forall k :: 1 <= k < |s| ==> s[k] == s[1..][k - 1];
      r
    else s
  }

  /** s without its longest suffix of characters from cs (Python's `rstrip(cs)`). */
  function TrimRight(s: string, cs: set<char>): (r: string)
    ensures |r| <= |s| && r == s[..|r|]
    ensures forall k :: |r| <= k < |s| ==> s[k] in cs
    ensures |r| > 0 ==> r[|r| - 1] !in cs
    decreases |s|
  {
    if |s| > 0 && s[|s| - 1] in cs then
      var r := TrimRight(s[..|s| - 1], cs);
      assert forall k :: 0 <= k < |s| - 1 ==> s[k] == s[..|s| - 1][k];
      r
    else s
  }

  /**
   Python's `s.strip(chars)` with chars = cs: what is left of s after
   removing every leading and trailing character in cs. The result is empty
   or starts and ends with a character outside cs.
   */
  function Strip(s: string, cs: set<char>): (r: string)
    ensures |r| <= |s|
    ensures |r| > 0 ==> r[0] !in cs && r[|r| - 1] !in cs
  {
    TrimRight(TrimLeft(s, cs), cs)
  }

  /** Removing a cs prefix stops at the first character outside cs. */
  lemma {:induction false} TrimLeftSkips(pre: string, rest: string, cs: set<char>)
    requires AllIn(pre, cs)
    requires |rest| > 0 ==> rest[0] !in cs
    ensures TrimLeft(pre + rest, cs) == rest
    decreases |pre|
  {
    if |pre| == 0 {
      assert pre + rest == rest;
    } else {
      assert (pre + rest)[0] == pre[0];
      assert (pre + rest)[1..] == pre[1..] + rest;
      TrimLeftSkips(pre[1..], rest, cs);
    }
  }

  /** Removing a cs suffix stops at the last character outside cs. */
  lemma {:induction false} TrimRightSkips(rest: string, post: string, cs: set<char>)
    requires AllIn(post, cs)
    requires |rest| > 0 ==> rest[|rest| - 1] !in cs
    ensures TrimRight(rest + post, cs) == rest
    decreases |post|
  {
    if |post| == 0 {
      assert rest + post == rest;
    } else {
      var x := rest + post;
      assert x[|x| - 1] == post[|post| - 1];
      assert x[..|x| - 1] == rest + post[..|post| - 1];
      TrimRightSkips(rest, post[..|post| - 1], cs);
    }
  }

  /** Strip changes nothing when neither end of s can be stripped. */
  lemma StripNothing(s: string, cs: set<char>)
    requires |s| > 0 ==> s[0] !in cs && s[|s| - 1] !in cs
    ensures Strip(s, cs) == s
  {
  }

  /** Stripping characters that surround a string removes exactly them. */
  lemma StripSurrounded(pre: string, s: string, post: string, cs: set<char>)
    requires AllIn(pre, cs) && AllIn(post, cs)
    requires |s| > 0 && s[0] !in cs && s[|s| - 1] !in cs
    ensures Strip(pre + s + post, cs) == s
  {
    assert pre + s + post == pre + (s + post);
    TrimLeftSkips(pre, s + post, cs);
    TrimRightSkips(s, post, cs);
  }

  // ---------------------------------------------------------------- split

  /** The index of the first character of s in cs, or |s| when there is none. */
  function FindFirst(s: string, cs: set<char>): (i: nat)
    ensures i <= |s|
    ensures forall k :: 0 <= k < i ==> s[k] !in cs
    ensures i < |s| ==> s[i] in cs
  {
    if |s| == 0 || s[0] in cs then 0
    else
      var i := 1 + FindFirst(s[1..], cs);
      assert forall k :: 1 <= k < |s| ==> s[k] == s[1..][k - 1];
      i
  }

  /** s with every character of cs removed. */
  function Without(s: string, cs: set<char>): (r: string)
    ensures NoneIn(r, cs)
  {
    if |s| == 0 then []
    else (if s[0] in cs then [] else [s[0]]) + Without(s[1..], cs)
  }

  lemma {:induction false} WithoutAppend(a: string, b: string, cs: set<char>)
    ensures Without(a + b, cs) == Without(a, cs) + Without(b, cs)
    decreases |a|
  {
    if |a| > 0 {
      assert (a + b)[1..] == a[1..] + b;
      WithoutAppend(a[1..], b, cs);
    } else {
      assert a + b == b;
    }
  }

  lemma {:induction false} WithoutAll(a: string, cs: set<char>)
    requires AllIn(a, cs)
    ensures Without(a, cs) == []
    decreases |a|
  {
    if |a| > 0 {
      WithoutAll(a[1..], cs);
    }
  }

  lemma {:induction false} WithoutNone(a: string, cs: set<char>)
    requires NoneIn(a, cs)
    ensures Without(a, cs) == a
    decreases |a|
  {
    if |a| > 0 {
      WithoutNone(a[1..], cs);
    }
  }

  /** The concatenation of a sequence of strings. */
  function Concat(ss: seq<string>): string {
    if |ss| == 0 then [] else ss[0] + Concat(ss[1..])
  }

  /**
   The maximal runs of characters not in cs, in order; with cs = Whitespace
   this is Python's `s.split()` with no separator.
   */
  function Fields(s: string, cs: set<char>): (r: seq<string>)
    ensures forall f :: f in r ==> IsField(f, cs)
    decreases |s|
  {
    var t := TrimLeft(s, cs);
    if |t| == 0 then []
    else
      var i := FindFirst(t, cs);
      FirstFieldIsField(t, cs);
      [t[..i]] + Fields(t[i..], cs)
  }

  lemma FirstFieldIsField(t: string, cs: set<char>)
    requires |t| > 0 && t[0] !in cs
    ensures IsField(t[..FindFirst(t, cs)], cs)
  {
  }

  /** Together the fields hold exactly the characters of s outside cs, in order. */
  lemma {:induction false} FieldsConcat(s: string, cs: set<char>)
    ensures Concat(Fields(s, cs)) == Without(s, cs)
    decreases |s|
  {
    var t := TrimLeft(s, cs);
    WithoutTrimLeft(s, cs);
    if |t| > 0 {
      var i := FindFirst(t, cs);
      var rest := Fields(t[i..], cs);
      FieldsConcat(t[i..], cs);
      WithoutFirstField(t, i, cs);
      assert ([t[..i]] + rest)[1..] == rest;
    }
  }

  /** Dropping leading separators does not change the non-separator characters. */
  lemma WithoutTrimLeft(s: string, cs: set<char>)
    ensures Without(s, cs) == Without(TrimLeft(s, cs), cs)
  {
    var t := TrimLeft(s, cs);
    var pre := s[..|s| - |t|];
    assert s == pre + t;
    assert AllIn(pre, cs) by {
      assert forall k :: 0 <= k < |pre| ==> pre[k] == s[k];
    }
    WithoutAppend(pre, t, cs);
    WithoutAll(pre, cs);
  }

  /** A separator-free prefix is kept whole. */
  lemma WithoutFirstField(t: string, i: nat, cs: set<char>)
    requires i <= |t|
    requires forall k :: 0 <= k < i ==> t[k] !in cs
    ensures Without(t, cs) == t[..i] + Without(t[i..], cs)
  {
    assert t == t[..i] + t[i..];
    WithoutAppend(t[..i], t[i..], cs);
    WithoutNone(t[..i], cs);
  }

  /** A non-empty string free of the separators cs. */
  predicate IsField(f: string, cs: set<char>) {
    |f| > 0 && NoneIn(f, cs)
  }

  /** A run of separators: non-empty, every character in cs. */
  predicate IsSeparator(sep: string, cs: set<char>) {
    |sep| > 0 && AllIn(sep, cs)
  }

  /**
   Words joined by runs of separators, seps[j] between ws[j] and ws[j + 1]:
   the shape of one row of a table a tool prints with padded columns.
   */
  function JoinWith(ws: seq<string>, seps: seq<string>): string
    requires |seps| + 1 == |ws|
    decreases |ws|
  {
    if |ws| == 1 then ws[0] else ws[0] + seps[0] + JoinWith(ws[1..], seps[1..])
  }

  lemma NoneInAppend(a: string, b: string, ds: set<char>)
    requires NoneIn(a, ds) && NoneIn(b, ds)
    ensures NoneIn(a + b, ds)
  {
    assert forall k :: |a| <= k < |a + b| ==> (a + b)[k] == b[k - |a|];
  }

  /** Joining words and separators brings in no character that none of them has. */
  lemma {:induction false} JoinWithAvoids(ws: seq<string>, seps: seq<string>, ds: set<char>)
    requires |seps| + 1 == |ws|
    requires forall j :: 0 <= j < |ws| ==> NoneIn(ws[j], ds)
    requires forall j :: 0 <= j < |seps| ==> NoneIn(seps[j], ds)
    ensures NoneIn(JoinWith(ws, seps), ds)
    decreases |ws|
  {
    if |ws| > 1 {
      JoinWithAvoids(ws[1..], seps[1..], ds);
      JoinWithCons(ws, seps);
      NoneInAppend(ws[0], seps[0], ds);
      NoneInAppend(ws[0] + seps[0], JoinWith(ws[1..], seps[1..]), ds);
    }
  }

  /**
   Splitting words joined by separator runs gives the words back, however
   long each run is.
   */
  lemma {:induction false} FieldsJoinWith(ws: seq<string>, seps: seq<string>, cs: set<char>)
    requires |seps| + 1 == |ws|
    requires forall j :: 0 <= j < |ws| ==> IsField(ws[j], cs)
    requires forall j :: 0 <= j < |seps| ==> IsSeparator(seps[j], cs)
    ensures Fields(JoinWith(ws, seps), cs) == ws
    decreases |ws|
  {
    if |ws| == 1 {
      FieldsOfField(ws[0], cs);
      assert [ws[0]] == ws;
    } else {
      JoinWithTails(ws, seps, cs);
      FieldsJoinWith(ws[1..], seps[1..], cs);
      FieldsJoinWithCons(ws, seps, cs);
      HeadTail(ws);
    }
  }

  lemma JoinWithTails(ws: seq<string>, seps: seq<string>, cs: set<char>)
    requires |seps| + 1 == |ws| && |ws| > 1
    requires forall j :: 0 <= j < |ws| ==> IsField(ws[j], cs)
    requires forall j :: 0 <= j < |seps| ==> IsSeparator(seps[j], cs)
    ensures IsField(ws[0], cs) && IsSeparator(seps[0], cs)
    ensures forall j :: 0 <= j < |ws[1..]| ==> IsField(ws[1..][j], cs)
    ensures forall j :: 0 <= j < |seps[1..]| ==> IsSeparator(seps[1..][j], cs)
  {
    assert forall j :: 0 <= j < |ws[1..]| ==> ws[1..][j] == ws[j + 1];
    assert forall j :: 0 <= j < |seps[1..]| ==> seps[1..][j] == seps[j + 1];
  }

  lemma HeadTail<T>(xs: seq<T>)
    requires |xs| > 0
    ensures [xs[0]] + xs[1..] == xs
  {
  }

  lemma PairThen<T>(a: T, b: T, rest: seq<T>)
    ensures ([a, b] + rest)[1..] == [b] + rest
    ensures ([b] + rest)[1..] == rest
    ensures [a] + ([b] + rest) == [a, b] + rest
  {
  }

  lemma FieldsJoinWithCons(ws: seq<string>, seps: seq<string>, cs: set<char>)
    requires |seps| + 1 == |ws| && |ws| > 1
    requires IsField(ws[0], cs) && IsSeparator(seps[0], cs)
    ensures Fields(JoinWith(ws, seps), cs) == [ws[0]] + Fields(JoinWith(ws[1..], seps[1..]), cs)
  {
    JoinWithCons(ws, seps);
    FieldsConsRun(ws[0], seps[0], JoinWith(ws[1..], seps[1..]), cs);
  }

  lemma JoinWithCons(ws: seq<string>, seps: seq<string>)
    requires |seps| + 1 == |ws| && |ws| > 1
    ensures JoinWith(ws, seps) == ws[0] + seps[0] + JoinWith(ws[1..], seps[1..])
  {
  }

  /** A lone field splits into itself. */
  lemma FieldsOfField(w: string, cs: set<char>)
    requires IsField(w, cs)
    ensures Fields(w, cs) == [w]
  {
    FieldsCons(w, [], cs);
    assert w + [] == w;
  }

  /** A field, a run of separators, and more text: the field comes first, then the fields of the rest. */
  lemma FieldsConsRun(w: string, sep: string, u: string, cs: set<char>)
    requires IsField(w, cs) && IsSeparator(sep, cs)
    ensures Fields(w + sep + u, cs) == [w] + Fields(u, cs)
  {
    assert w + sep + u == w + (sep + u);
    FieldsCons(w, sep + u, cs);
    FieldsSkipRun(sep, u, cs);
  }

  /** A field followed by a separator (or by nothing) is split off first. */
  lemma FieldsCons(w: string, tail: string, cs: set<char>)
    requires IsField(w, cs)
    requires |tail| > 0 ==> tail[0] in cs
    ensures Fields(w + tail, cs) == [w] + Fields(tail, cs)
  {
    var s := w + tail;
    assert s[0] == w[0];
    assert TrimLeft(s, cs) == s;
    FindFirstPrefix(w, tail, cs);
    assert s[..|w|] == w;
    assert s[|w|..] == tail;
  }

  /** Leading separators do not change the fields. */
  lemma FieldsSkipRun(sep: string, u: string, cs: set<char>)
    requires AllIn(sep, cs)
    ensures Fields(sep + u, cs) == Fields(u, cs)
  {
    TrimLeftRun(sep, u, cs);
  }

  /** Removing a cs prefix goes through any run of cs characters put in front. */
  lemma {:induction false} TrimLeftRun(pre: string, u: string, cs: set<char>)
    requires AllIn(pre, cs)
    ensures TrimLeft(pre + u, cs) == TrimLeft(u, cs)
    decreases |pre|
  {
    if |pre| == 0 {
      assert pre + u == u;
    } else {
      assert (pre + u)[0] == pre[0];
      assert (pre + u)[1..] == pre[1..] + u;
      TrimLeftRun(pre[1..], u, cs);
    }
  }

  /** The first cs character of w + tail is at |w| when w has none and tail starts with one (or is empty). */
  lemma {:induction false} FindFirstPrefix(w: string, tail: string, cs: set<char>)
    requires NoneIn(w, cs)
    requires |tail| > 0 ==> tail[0] in cs
    ensures FindFirst(w + tail, cs) == |w|
    decreases |w|
  {
    if |w| > 0 {
      assert (w + tail)[1..] == w[1..] + tail;
      FindFirstPrefix(w[1..], tail, cs);
    } else {
      assert w + tail == tail;
    }
  }

  // ---------------------------------------------------------------- splitlines

  /**
   Python's `s.splitlines()`: the lines of s without their terminators. A
   final line without a terminator counts only when it is non-empty, so
   the empty string has no lines and "a\n" has one.
   */
  function SplitLines(s: string): (r: seq<string>)
    ensures |r| == 0 <==> |s| == 0
    ensures forall j :: 0 <= j < |r| ==> NoneIn(r[j], LineBreaks)
    decreases |s|
  {
    if |s| == 0 then []
    else
      var i := FindFirst(s, LineBreaks);
      if i == |s| then
        assert s[..i] == s;
        [s]
      else
        var next := if s[i] == '\r' && i + 1 < |s| && s[i + 1] == '\n' then i + 2 else i + 1;
        [s[..i]] + SplitLines(s[next..])
  }

  /** Lines each followed by "\n", the shape of a tool's standard output. */
  function JoinTerminated(ls: seq<string>): string {
    if |ls| == 0 then [] else ls[0] + "\n" + JoinTerminated(ls[1..])
  }

  /** Splitting "\n"-terminated lines gives the lines back. */
  lemma {:induction false} SplitLinesJoinTerminated(ls: seq<string>)
    requires forall j :: 0 <= j < |ls| ==> NoneIn(ls[j], LineBreaks)
    ensures SplitLines(JoinTerminated(ls)) == ls
    decreases |ls|
  {
    if |ls| > 0 {
      SplitLinesJoinTerminated(ls[1..]);
      SplitLinesCons(ls[0], JoinTerminated(ls[1..]));
      HeadTail(ls);
    }
  }

  /** A line free of breaks followed by "\n" is split off first. */
  lemma SplitLinesCons(l: string, rest: string)
    requires NoneIn(l, LineBreaks)
    ensures SplitLines(l + "\n" + rest) == [l] + SplitLines(rest)
  {
    var s := l + "\n" + rest;
    assert s == l + ("\n" + rest);
    FindFirstPrefix(l, "\n" + rest, LineBreaks);
    assert s[|l|] == '\n';
    assert s[..|l|] == l;
    assert s[|l| + 1..] == rest;
  }

  // ---------------------------------------------------------------- integers

  predicate IsDigit(c: char) {
    '0' <= c <= '9'
  }

  predicate AllDigits(s: string) {
    forall k :: 0 <= k < |s| ==> IsDigit(s[k])
  }

  /** The decimal value of a string of ASCII digits. */
  function DigitsValue(s: string): nat
    requires AllDigits(s)
  {
    if |s| == 0 then 0
    else DigitsValue(s[..|s| - 1]) * 10 + (s[|s| - 1] as int - '0' as int)
  }

  /**
   `int(s)` restricted to non-empty strings of ASCII digits; anything else
   is rejected, as Python rejects it with ValueError.
   */
  function ParseNat(s: string): (r: Option<nat>)
    ensures r.Some? <==> |s| > 0 && AllDigits(s)
  {
    if |s| > 0 && AllDigits(s) then Some(DigitsValue(s)) else None
  }

  function DigitChar(d: nat): (c: char)
    requires d < 10
    ensures IsDigit(c) && c as int - '0' as int == d
  {
    ('0' as int + d) as char
  }

  /** `str(n)`: the decimal numeral of n, with no leading zero. */
  function NatToString(n: nat): (r: string)
    ensures |r| > 0 && AllDigits(r)
    ensures |r| > 1 ==> r[0] != '0'
    decreases n
  {
    if n < 10 then [DigitChar(n)]
    else NatToString(n / 10) + [DigitChar(n % 10)]
  }

  /** Reading back a printed natural gives the natural. */
  lemma {:induction false} ParseNatToString(n: nat)
    ensures ParseNat(NatToString(n)) == Some(n)
    decreases n
  {
    var s := NatToString(n);
    if n < 10 {
      assert s[..0] == [];
      assert DigitsValue(s) == n;
    } else {
      ParseNatToString(n / 10);
      assert s[..|s| - 1] == NatToString(n / 10);
      assert DigitsValue(s) == (n / 10) * 10 + n % 10;
    }
  }

  /** A numeral without a leading zero denotes at least 1 unless it is "0". */
  lemma {:induction false} DigitsValuePositive(s: string)
    requires |s| > 0 && AllDigits(s) && s[0] != '0'
    ensures DigitsValue(s) >= 1
    decreases |s|
  {
    if |s| > 1 {
      DigitsValuePositive(s[..|s| - 1]);
    }
  }

  /** Printing a parsed canonical numeral gives the numeral back. */
  lemma {:induction false} NatToStringParse(s: string)
    requires |s| > 0 && AllDigits(s)
    requires |s| > 1 ==> s[0] != '0'
    ensures ParseNat(s).Some? && NatToString(ParseNat(s).value) == s
    decreases |s|
  {
    var v := DigitsValue(s);
    var d := s[|s| - 1] as int - '0' as int;
    if |s| == 1 {
      assert s[..|s| - 1] == [];
      assert DigitsValue(s[..|s| - 1]) == 0;
      assert v == d;
      assert [DigitChar(d)] == s;
    } else {
      var p := s[..|s| - 1];
      DigitsValuePositive(p);
      NatToStringParse(p);
      assert v == DigitsValue(p) * 10 + d;
      assert v / 10 == DigitsValue(p);
      assert v % 10 == d;
      assert DigitChar(d) == s[|s| - 1];
      assert p + [s[|s| - 1]] == s;
    }
  }

  // ---------------------------------------------------------------- title case

  predicate IsUpper(c: char) {
    'A' <= c <= 'Z'
  }

  predicate IsLower(c: char) {
    'a' <= c <= 'z'
  }

  predicate IsLetter(c: char) {
    IsUpper(c) || IsLower(c)
  }

  function ToUpper(c: char): (u: char)
    ensures IsLetter(c) ==> IsUpper(u)
    ensures !IsLower(c) ==> u == c
  {
    if IsLower(c) then (c as int - 32) as char else c
  }

  function ToLower(c: char): (l: char)
    ensures IsLetter(c) ==> IsLower(l)
    ensures !IsUpper(c) ==> l == c
  {
    if IsUpper(c) then (c as int + 32) as char else c
  }

  /** Two characters equal up to ASCII case. */
  predicate SameLetter(a: char, b: char) {
    ToLower(a) == ToLower(b)
  }

  /**
   One character of Python's `str.title()` over ASCII: a letter is
   upper-cased when no letter precedes it and lower-cased otherwise; every
   other character is kept.
   */
  function TitleChar(c: char, prevLetter: bool): (r: char)
    ensures SameLetter(r, c) && IsLetter(r) == IsLetter(c)
    ensures IsLetter(c) ==> (IsUpper(r) <==> !prevLetter)
    ensures !IsLetter(c) ==> r == c
  {
    if !IsLetter(c) then c else if prevLetter then ToLower(c) else ToUpper(c)
  }

  /**
   `str.title()` over ASCII, scanning left to right; `prevLetter` says
   whether a letter precedes s. Each character is title-cased with respect
   to the character just before it.
   */
  function TitleFrom(s: string, prevLetter: bool): (r: string)
    ensures |r| == |s|
    ensures forall k :: 0 <= k < |s| ==>
      r[k] == TitleChar(s[k], if k == 0 then prevLetter else IsLetter(s[k - 1]))
    decreases |s|
  {
    if |s| == 0 then []
    else
      var rest := TitleFrom(s[1..], IsLetter(s[0]));
      var r := [TitleChar(s[0], prevLetter)] + rest;
      assert forall k :: 0 < k < |s| ==> r[k] == rest[k - 1] && s[k] == s[1..][k - 1];
      r
  }

  /** `str.title()` of a name: word starts in upper case, the rest of each word in lower case, all else kept. */
  function TitleCase(s: string): (r: string)
    ensures |r| == |s|
    ensures forall k :: 0 <= k < |s| ==> SameLetter(r[k], s[k])
    ensures forall k :: 0 <= k < |s| && !IsLetter(s[k]) ==> r[k] == s[k]
    ensures forall k :: 0 <= k < |s| && IsLetter(s[k]) ==> (IsUpper(r[k]) <==> k == 0 || !IsLetter(s[k - 1]))
  {
    var r := TitleFrom(s, false);
    forall k | 0 <= k < |s|
      ensures SameLetter(r[k], s[k])
      ensures !IsLetter(s[k]) ==> r[k] == s[k]
      ensures IsLetter(s[k]) ==> (IsUpper(r[k]) <==> k == 0 || !IsLetter(s[k - 1]))
    {
      var prev := if k == 0 then false else IsLetter(s[k - 1]);
      assert r[k] == TitleChar(s[k], prev);
    }
    r
  }
}
