/** The optional value used for "no match" results. */
module Optional {
  datatype Option<+T> = None | Some(value: T)
}

/** The Python string operations the extraction code relies on, over the
    alphabet of module Chars: `strip`, `split`, `in`, `endswith`, `upper`,
    `lower`, `join`, `splitlines()[0]` and the ordering of `<` on `str`. */
module PyStr {
  import opened Chars
  import opened Optional

  predicate AllSpace(s: string) {
    forall i :: 0 <= i < |s| ==> IsSpace(s[i])
  }

  predicate HasSpace(s: string) {
    exists i :: 0 <= i < |s| && IsSpace(s[i])
  }

  /** No whitespace at either end, as left by `str.strip()`. */
  predicate IsStripped(s: string) {
    s == [] || (!IsSpace(s[0]) && !IsSpace(s[|s| - 1]))
  }

  /** `str.lstrip()`: the suffix left after the leading whitespace. */
  function TrimStart(s: string): (r: string)
    ensures |r| <= |s| && r == s[|s| - |r|..]
    ensures r == [] || !IsSpace(r[0])
    ensures r == [] ==> AllSpace(s)
    decreases |s|
  {
    if s != [] && IsSpace(s[0]) then TrimStart(s[1..]) else s
  }

  /** Number of whitespace characters `str.strip()` removes at the front. */
  function LeadingSpaces(s: string): (n: nat)
    ensures n <= |s|
    decreases |s|
  {
    if s != [] && IsSpace(s[0]) then 1 + LeadingSpaces(s[1..]) else 0
  }

  /** `str.strip()`: whitespace removed at both ends, one character at a
      time. */
  function Strip(s: string): (r: string)
    ensures IsStripped(r)
    decreases |s|
  {
    if s != [] && IsSpace(s[0]) then Strip(s[1..])
    else if s != [] && IsSpace(s[|s| - 1]) then Strip(s[..|s| - 1])
    else s
  }

  /** What `str.strip()` leaves, as a statement about `s`: the infix
      between `lead` leading and some trailing whitespace characters, empty
      exactly when `s` is blank. */
  predicate StripsTo(s: string, lead: nat, r: string) {
    && lead + |r| <= |s|
    && r == s[lead..lead + |r|]
    && AllSpace(s[..lead]) && AllSpace(s[lead + |r|..])
    && (r == [] <==> AllSpace(s))
  }

  /** What `str.strip()` leaves is the infix of `s` between its leading and
      its trailing whitespace, and it is empty exactly when `s` is blank. */
  lemma StripSpec(s: string)
    ensures LeadingSpaces(s) + |Strip(s)| <= |s|
    ensures Strip(s) == s[LeadingSpaces(s)..LeadingSpaces(s) + |Strip(s)|]
    ensures AllSpace(s[..LeadingSpaces(s)]) && AllSpace(s[LeadingSpaces(s) + |Strip(s)|..])
    ensures Strip(s) == [] <==> AllSpace(s)
  {
    StripStripsTo(s);
  }

  /** The induction behind `StripSpec`, one character at a time. */
  lemma {:induction false} StripStripsTo(s: string)
    ensures StripsTo(s, LeadingSpaces(s), Strip(s))
    decreases |s|
  {
    if s != [] && IsSpace(s[0]) {
      StripStripsTo(s[1..]);
      StripsToFront(s, LeadingSpaces(s[1..]), Strip(s));
    } else if s != [] && IsSpace(s[|s| - 1]) {
      StripStripsTo(s[..|s| - 1]);
      StripsToBack(s, Strip(s));
    } else {
      assert s[0..|s|] == s;
      assert s != [] ==> !IsSpace(s[0]);
    }
  }

  /** A leading whitespace character adds one to the leading run. */
  lemma StripsToFront(s: string, lead: nat, r: string)
    requires s != [] && IsSpace(s[0]) && StripsTo(s[1..], lead, r)
    ensures StripsTo(s, lead + 1, r)
  {
    var u := s[1..];
    assert s[lead + 1..lead + 1 + |r|] == u[lead..lead + |r|];
    assert s[lead + 1 + |r|..] == u[lead + |r|..];
    forall i | 0 <= i < lead + 1 ensures IsSpace(s[i]) {
      if i > 0 {
        assert s[i] == u[..lead][i - 1];
      }
    }
    assert AllSpace(u) ==> AllSpace(s) by {
      if AllSpace(u) {
        forall i | 0 <= i < |s| ensures IsSpace(s[i]) {
          if i > 0 {
            assert s[i] == u[i - 1];
          }
        }
      }
    }
  }

  /** With no leading whitespace, a trailing whitespace character joins the
      trailing run. */
  lemma StripsToBack(s: string, r: string)
    requires |s| >= 2 && !IsSpace(s[0]) && IsSpace(s[|s| - 1])
    requires StripsTo(s[..|s| - 1], 0, r)
    ensures StripsTo(s, 0, r)
  {
    var t := s[..|s| - 1];
    assert t[0] == s[0];
    assert !AllSpace(t);
    assert r != [];
    assert s[0..|r|] == t[0..|r|];
    forall i | |r| <= i < |s| ensures IsSpace(s[i]) {
      if i < |s| - 1 {
        assert s[i] == t[|r|..][i - |r|];
      }
    }
    assert s[|r|..] == s[|r|..|s|];
  }

  /** Stripping a stripped, non-empty string followed by whitespace gives
      the string back. */
  lemma {:induction false} StripTrailingSpace(x: string, t: string)
    requires x != [] && IsStripped(x) && AllSpace(t)
    ensures Strip(x + t) == x
    decreases |t|
  {
    var s := x + t;
    assert s[0] == x[0];
    if t == [] {
      assert s == x;
    } else {
      var t' := t[..|t| - 1];
      assert s[|s| - 1] == t[|t| - 1];
      assert s[..|s| - 1] == x + t';
      StripTrailingSpace(x, t');
    }
  }

  /** Position of the first occurrence of `c` in `s`, if any. */
  function IndexOfChar(s: string, c: char): (r: Option<nat>)
    ensures r.None? <==> c !in s
    ensures r.Some? ==> r.value < |s| && s[r.value] == c && c !in s[..r.value]
  {
    if s == [] then None
    else if s[0] == c then Some(0)
    else match IndexOfChar(s[1..], c)
      case None => None
      case Some(i) => assert s[1..][..i] == s[1..i + 1]; Some(i + 1)
  }

  /** `sep.join(parts)`. */
  function Join(parts: seq<string>, sep: string): (r: string)
  {
    if parts == [] then []
    else if |parts| == 1 then parts[0]
    else parts[0] + sep + Join(parts[1..], sep)
  }

  /** `s.split(c)` for a one-character separator: the pieces between
      occurrences of `c`, which joined back with `c` give `s`. */
  function SplitChar(s: string, c: char): (parts: seq<string>)
    ensures |parts| >= 1
    decreases |s|
  {
    match IndexOfChar(s, c)
    case None => [s]
    case Some(i) => [s[..i]] + SplitChar(s[i + 1..], c)
  }

  /** No piece holds the separator, and joining the pieces back with it
      gives the string: `c.join(s.split(c)) == s`. */
  lemma {:induction false} SplitCharSpec(s: string, c: char)
    ensures forall p <- SplitChar(s, c) :: c !in p
    ensures Join(SplitChar(s, c), [c]) == s
    decreases |s|
  {
    match IndexOfChar(s, c)
    case None =>
    case Some(i) =>
      SplitCharSpec(s[i + 1..], c);
      var rest := SplitChar(s[i + 1..], c);
      assert SplitChar(s, c) == [s[..i]] + rest;
      assert ([s[..i]] + rest)[1..] == rest;
      assert s == s[..i] + [c] + s[i + 1..];
  }

  /** Every character of every piece comes from the split string. */
  lemma {:induction false} SplitCharPiecesFromText(s: string, c: char)
    ensures forall p <- SplitChar(s, c), ch <- p :: ch in s
    decreases |s|
  {
    match IndexOfChar(s, c)
    case None =>
    case Some(i) =>
      SplitCharPiecesFromText(s[i + 1..], c);
      var parts := SplitChar(s, c);
      forall p <- parts, ch <- p ensures ch in s {
        if p != s[..i] {
          assert p in SplitChar(s[i + 1..], c);
          assert ch in s[i + 1..];
        }
      }
  }

  /** `[l.strip() for l in parts if l.strip()]`. */
  function StripNonBlank(parts: seq<string>): (lines: seq<string>)
    ensures |lines| <= |parts|
  {
    if parts == [] then []
    else
      var init := StripNonBlank(parts[..|parts| - 1]);
      var l := Strip(parts[|parts| - 1]);
      if l == [] then init else init + [l]
  }

  /** Every kept line is the stripped form of one of the pieces, and is
      neither empty nor padded; every piece that is not blank is kept. */
  lemma {:induction false} StripNonBlankOrigin(parts: seq<string>)
    ensures forall l <- StripNonBlank(parts) :: l != [] && IsStripped(l)
    ensures forall l <- StripNonBlank(parts) :: exists p <- parts :: l == Strip(p)
    ensures forall p <- parts :: Strip(p) != [] ==> Strip(p) in StripNonBlank(parts)
  {
    if parts != [] {
      var init := parts[..|parts| - 1];
      var last := parts[|parts| - 1];
      StripNonBlankOrigin(init);
      assert forall p <- init :: p in parts;
      assert last in parts;
      forall l <- StripNonBlank(parts) ensures exists p <- parts :: l == Strip(p) {
        if l !in StripNonBlank(init) {
          assert l == Strip(last);
        }
      }
      forall p <- parts | Strip(p) != [] ensures Strip(p) in StripNonBlank(parts) {
        if p != last {
          var k :| 0 <= k < |parts| && parts[k] == p;
          assert init[k] == p;
        }
      }
    }
  }

  /** The pieces are handled one at a time and the kept lines keep their
      order: keeping the lines of two lists of pieces one after the other
      is keeping the lines of the two lists joined. */
  lemma {:induction false} StripNonBlankAppend(a: seq<string>, b: seq<string>)
    ensures StripNonBlank(a + b) == StripNonBlank(a) + StripNonBlank(b)
    decreases |b|
  {
    if b == [] {
      assert a + b == a;
    } else {
      var init := b[..|b| - 1];
      StripNonBlankAppend(a, init);
      assert (a + b)[..|a + b| - 1] == a + init;
      assert (a + b)[|a + b| - 1] == b[|b| - 1];
    }
  }

  /** The trimmed, non-blank lines of a text:
      `[l.strip() for l in text.split("\n") if l.strip()]`. */
  function Lines(text: string): seq<string> {
    StripNonBlank(SplitChar(text, '\n'))
  }

  /** Every line is non-empty, stripped, and free of line feeds, and every
      piece between line feeds that is not blank gives a line. */
  lemma LinesSpec(text: string)
    ensures forall l <- Lines(text) :: l != [] && IsStripped(l) && '\n' !in l
    ensures forall p <- SplitChar(text, '\n') :: Strip(p) != [] ==> Strip(p) in Lines(text)
  {
    var parts := SplitChar(text, '\n');
    SplitCharSpec(text, '\n');
    StripNonBlankOrigin(parts);
    StrippedPiecesHaveNoNewline(parts, StripNonBlank(parts));
  }

  lemma StrippedPiecesHaveNoNewline(parts: seq<string>, ls: seq<string>)
    requires forall p <- parts :: '\n' !in p
    requires forall l <- ls :: exists p <- parts :: l == Strip(p)
    ensures forall l <- ls :: '\n' !in l
  {
    forall l <- ls ensures '\n' !in l {
      var p :| p in parts && l == Strip(p);
      StripSpec(p);
      forall k | 0 <= k < |l| ensures l[k] != '\n' {
        assert l[k] == p[LeadingSpaces(p) + k];
      }
    }
  }

  /** Length of the run of non-whitespace characters at the front of `s`. */
  function NonSpaceRun(s: string): (n: nat)
    ensures n <= |s|
    ensures forall i :: 0 <= i < n ==> !IsSpace(s[i])
    ensures n < |s| ==> IsSpace(s[n])
  {
    if s == [] || IsSpace(s[0]) then 0 else 1 + NonSpaceRun(s[1..])
  }

  /** `s.split()`: the maximal runs of non-whitespace characters. */
  function Words(s: string): seq<string>
    decreases |s|
  {
    var t := TrimStart(s);
    if t == [] then []
    else
      var n := NonSpaceRun(t);
      [t[..n]] + Words(t[n..])
  }

  /** A non-empty run without whitespace. */
  predicate IsWord(w: string) {
    w != [] && !HasSpace(w)
  }

  /** Every word is non-empty and holds no whitespace. */
  lemma {:induction false} WordsSpec(s: string)
    ensures forall i :: 0 <= i < |Words(s)| ==> IsWord(Words(s)[i])
    decreases |s|
  {
    var t := TrimStart(s);
    if t != [] {
      var n := NonSpaceRun(t);
      var w := t[..n];
      var rest := Words(t[n..]);
      WordsSpec(t[n..]);
      FrontRunIsWord(t);
      assert Words(s) == [w] + rest;
      forall i | 0 <= i < |Words(s)| ensures IsWord(Words(s)[i]) {
        if i > 0 {
          assert Words(s)[i] == rest[i - 1];
        }
      }
    }
  }

  /** There are no words exactly when the string is all whitespace. */
  lemma WordsEmptyIff(s: string)
    ensures Words(s) == [] <==> AllSpace(s)
  {
    var t := TrimStart(s);
    if t != [] {
      assert t[0] == s[|s| - |t|];
    }
  }

  /** The run at the front of a string that starts with a non-space is a
      word. */
  lemma FrontRunIsWord(t: string)
    requires t != [] && !IsSpace(t[0])
    ensures IsWord(t[..NonSpaceRun(t)])
  {
    var n := NonSpaceRun(t);
    var w := t[..n];
    forall k | 0 <= k < n ensures !IsSpace(w[k]) {
      assert w[k] == t[k];
    }
  }

  /** A stripped string splits into at least two words exactly when it
      holds whitespace somewhere. */
  lemma {:induction false} TwoWordsIffInnerSpace(s: string)
    requires IsStripped(s)
    ensures |Words(s)| >= 2 <==> HasSpace(s)
  {
    if s == [] {
      return;
    }
    assert TrimStart(s) == s;
    var n := NonSpaceRun(s);
    if n == |s| {
      assert s[n..] == [];
      assert TrimStart(s[n..]) == [];
      assert !HasSpace(s);
    } else {
      assert IsSpace(s[n]);
      var rest := s[n..];
      var t := TrimStart(rest);
      assert rest[|rest| - 1] == s[|s| - 1];
      assert rest[..|rest|] == rest;
      assert !IsSpace(rest[|rest| - 1]);
      assert Words(rest) != [];
      assert |Words(s)| == 1 + |Words(rest)|;
    }
  }

  /** `s[..|p|] == p`: `s.startswith(p)`. */
  predicate StartsWith(s: string, p: string) {
    |p| <= |s| && s[..|p|] == p
  }

  /** `s.endswith(p)`. */
  predicate EndsWith(s: string, p: string) {
    |p| <= |s| && s[|s| - |p|..] == p
  }

  /** `sub in s`, scanning left to right. */
  predicate Contains(s: string, sub: string)
    decreases |s|
  {
    StartsWith(s, sub) || (s != [] && Contains(s[1..], sub))
  }

  predicate OccursAt(s: string, sub: string, i: int) {
    0 <= i && i + |sub| <= |s| && s[i..i + |sub|] == sub
  }

  /** The scan finds `sub` exactly when it occurs at some position. */
  lemma {:induction false} ContainsIff(s: string, sub: string)
    ensures Contains(s, sub) <==> exists i :: OccursAt(s, sub, i)
    decreases |s|
  {
    if StartsWith(s, sub) {
      assert OccursAt(s, sub, 0);
    } else if s == [] {
      assert sub != [];
    } else {
      ContainsIff(s[1..], sub);
      if exists i :: OccursAt(s[1..], sub, i) {
        var i :| OccursAt(s[1..], sub, i);
        assert s[i + 1..i + 1 + |sub|] == s[1..][i..i + |sub|];
        assert OccursAt(s, sub, i + 1);
      }
      if exists i :: OccursAt(s, sub, i) {
        var i :| OccursAt(s, sub, i);
        if i > 0 {
          assert s[1..][i - 1..i - 1 + |sub|] == s[i..i + |sub|];
          assert OccursAt(s[1..], sub, i - 1);
        }
      }
    }
  }

  /** `s.upper()`. */
  function UpperStr(s: string): (r: string)
    ensures |r| == |s|
    ensures forall i :: 0 <= i < |s| ==> r[i] == Upper(s[i])
  {
    seq(|s|, i requires 0 <= i < |s| => Upper(s[i]))
  }

  /** `s.lower()`. */
  function LowerStr(s: string): (r: string)
    ensures |r| == |s|
    ensures forall i :: 0 <= i < |s| ==> r[i] == Lower(s[i])
  {
    seq(|s|, i requires 0 <= i < |s| => Lower(s[i]))
  }

  /** `str(e).splitlines()[0]`: the text before the first line boundary;
      `None` for the empty message, where Python raises `IndexError`. */
  function FirstLine(msg: string): (r: Option<string>)
    ensures r.None? <==> msg == []
    ensures r.Some? ==> StartsWith(msg, r.value) && forall c <- r.value :: !IsLineBoundary(c)
    ensures r.Some? && |r.value| < |msg| ==> IsLineBoundary(msg[|r.value|])
  {
    if msg == [] then None
    else if IsLineBoundary(msg[0]) then Some([])
    else if |msg| == 1 then Some(msg)
    else
      var rest := FirstLine(msg[1..]).value;
      assert msg[..1 + |rest|] == [msg[0]] + msg[1..][..|rest|];
      Some([msg[0]] + rest)
  }

  /** Position of the first occurrence of `sub` in `s`, if any. */
  function IndexOf(s: string, sub: string): (r: Option<nat>)
    ensures r.Some? ==> OccursAt(s, sub, r.value)
    ensures r.Some? ==> forall j :: 0 <= j < r.value ==> !OccursAt(s, sub, j)
    ensures r.None? ==> forall j :: !OccursAt(s, sub, j)
    decreases |s|
  {
    if StartsWith(s, sub) then Some(0)
    else if s == [] then None
    else
      var r := IndexOf(s[1..], sub);
      ShiftOccurrence(s, sub);
      match r
      case None => None
      case Some(i) => Some(i + 1)
  }

  lemma ShiftOccurrence(s: string, sub: string)
    requires s != []
    ensures forall j :: 0 < j ==> (OccursAt(s, sub, j) <==> OccursAt(s[1..], sub, j - 1))
  {
    forall j | 0 < j ensures OccursAt(s, sub, j) <==> OccursAt(s[1..], sub, j - 1) {
      if j + |sub| <= |s| {
        assert s[1..][j - 1..j - 1 + |sub|] == s[j..j + |sub|];
      }
    }
  }

  /** `s.split(sep)` for a non-empty separator: cut at each leftmost
      occurrence of `sep`. */
  function SplitOn(s: string, sep: string): (parts: seq<string>)
    requires sep != []
    decreases |s|
  {
    match IndexOf(s, sep)
    case None => [s]
    case Some(i) => [s[..i]] + SplitOn(s[i + |sep|..], sep)
  }

  /** A string whose first character does not occur in `s` is not in `s`. */
  lemma FirstCharAbsent(s: string, w: string)
    requires w != [] && w[0] !in s
    ensures !Contains(s, w)
  {
    ContainsIff(s, w);
    forall i | 0 <= i && i + |w| <= |s| ensures !OccursAt(s, w, i) {
      assert s[i..i + |w|][0] == s[i];
    }
  }

  /** When the last character of `w` does not occur in `b`, every
      occurrence of `w` in `a + b` lies inside `a`. */
  lemma LastCharAbsentFromTail(a: string, b: string, w: string)
    requires w != [] && w[|w| - 1] !in b
    ensures Contains(a + b, w) <==> Contains(a, w)
  {
    ContainsInConcat(a, b, w);
    ContainsIff(a + b, w);
    ContainsIff(a, w);
    if Contains(a + b, w) {
      var i :| OccursAt(a + b, w, i);
      var j := i + |w| - 1;
      assert (a + b)[j] == (a + b)[i..i + |w|][|w| - 1] == w[|w| - 1];
      assert j < |a|;
      assert a[i..i + |w|] == (a + b)[i..i + |w|];
      assert OccursAt(a, w, i);
    }
  }

  /** Splitting a join on its separator gives back the pieces, provided no
      piece holds the separator's first character. */
  lemma {:induction false} SplitOnJoin(parts: seq<string>, sep: string)
    requires sep != [] && parts != []
    requires forall p <- parts :: sep[0] !in p
    ensures SplitOn(Join(parts, sep), sep) == parts
    decreases |parts|
  {
    var s := Join(parts, sep);
    var p0 := parts[0];
    forall j | 0 <= j < |p0| ensures !OccursAt(s, sep, j) {
      JoinStartsWithFirst(parts, sep);
      assert s[j] == p0[j] && p0[j] in p0;
      if j + |sep| <= |s| {
        assert s[j..j + |sep|][0] == s[j];
      }
    }
    if |parts| == 1 {
      forall j ensures !OccursAt(s, sep, j) {
        if 0 <= j && j + |sep| <= |s| {
          assert s[j..j + |sep|][0] == s[j];
        }
      }
      assert IndexOf(s, sep).None?;
    } else {
      var rest := Join(parts[1..], sep);
      assert s == p0 + sep + rest;
      assert s[|p0|..|p0| + |sep|] == sep;
      assert OccursAt(s, sep, |p0|);
      assert IndexOf(s, sep) == Some(|p0|);
      assert s[|p0| + |sep|..] == rest;
      assert s[..|p0|] == p0;
      SplitOnJoin(parts[1..], sep);
      assert parts == [p0] + parts[1..];
    }
  }

  lemma JoinStartsWithFirst(parts: seq<string>, sep: string)
    requires parts != []
    ensures |parts[0]| <= |Join(parts, sep)| && Join(parts, sep)[..|parts[0]|] == parts[0]
  {
    if |parts| > 1 {
      assert Join(parts, sep) == parts[0] + (sep + Join(parts[1..], sep));
    }
  }

  lemma ContainsInConcat(a: string, b: string, w: string)
    ensures Contains(a, w) ==> Contains(a + b, w)
    ensures Contains(b, w) ==> Contains(a + b, w)
  {
    ContainsIff(a, w);
    ContainsIff(b, w);
    ContainsIff(a + b, w);
    if Contains(a, w) {
      var i :| OccursAt(a, w, i);
      assert (a + b)[i..i + |w|] == a[i..i + |w|];
      assert OccursAt(a + b, w, i);
    }
    if Contains(b, w) {
      var i :| OccursAt(b, w, i);
      assert (a + b)[|a| + i..|a| + i + |w|] == b[i..i + |w|];
      assert OccursAt(a + b, w, |a| + i);
    }
  }

  /** An occurrence in `a + "; " + b` of a word free of ';' and not
      starting with a space lies inside `a` or inside `b`. */
  lemma ContainsAcrossSeparator(a: string, b: string, w: string)
    requires w != [] && ';' !in w && w[0] != ' '
    requires Contains(a + "; " + b, w)
    ensures Contains(a, w) || Contains(b, w)
  {
    var s := a + "; " + b;
    ContainsIff(s, w);
    var i :| OccursAt(s, w, i);
    if i + |w| <= |a| {
      assert a[i..i + |w|] == s[i..i + |w|];
      ContainsIff(a, w);
      assert OccursAt(a, w, i);
    } else {
      assert s[|a|] == ';' && s[|a| + 1] == ' ';
      assert forall j :: i <= j < i + |w| ==> s[j] == w[j - i];
      assert i >= |a| + 2;
      var k := i - |a| - 2;
      assert b[k..k + |w|] == s[i..i + |w|];
      ContainsIff(b, w);
      assert OccursAt(b, w, k);
    }
  }

  /** A word free of ';' and not starting with a space occurs in a
      `"; "`-join exactly when it occurs in one of the pieces. */
  lemma {:induction false} JoinedContains(xs: seq<string>, w: string)
    requires w != [] && ';' !in w && w[0] != ' '
    ensures Contains(Join(xs, "; "), w) <==> exists x <- xs :: Contains(x, w)
    decreases |xs|
  {
    if xs == [] {
      assert !StartsWith([], w);
    } else if |xs| == 1 {
      assert Join(xs, "; ") == xs[0];
    } else {
      var x0 := xs[0];
      var rest := Join(xs[1..], "; ");
      var s := Join(xs, "; ");
      assert s == x0 + ("; " + rest);
      assert x0 + "; " + rest == s;
      JoinedContains(xs[1..], w);
      ContainsInConcat(x0, "; " + rest, w);
      ContainsInConcat("; ", rest, w);
      assert forall x <- xs :: x == x0 || x in xs[1..];
      if Contains(s, w) {
        ContainsAcrossSeparator(x0, rest, w);
      }
    }
  }

  /** `a` can be obtained from `b` by deleting characters. */
  predicate IsSubseq(a: string, b: string)
    decreases |b|
  {
    if a == [] then true
    else if b == [] then false
    else if a[0] == b[0] then IsSubseq(a[1..], b[1..])
    else IsSubseq(a, b[1..])
  }

  lemma {:induction false} SubseqDropFirst(a: string, b: string)
    requires a != [] && IsSubseq(a, b)
    ensures IsSubseq(a[1..], b)
    decreases |b|, 1
  {
    if a[0] != b[0] {
      SubseqDropFirst(a, b[1..]);
    }
    SubseqSkip(a[1..], b[1..], b);
  }

  /** Dropping the first character of `b` can be undone: a subsequence of
      `b[1..]` is one of `b`. */
  lemma {:induction false} SubseqSkip(a: string, bt: string, b: string)
    requires b != [] && bt == b[1..] && IsSubseq(a, bt)
    ensures IsSubseq(a, b)
    decreases |b|, 0
  {
    if a != [] && a[0] == b[0] {
      SubseqDropFirst(a, bt);
    }
  }

  lemma {:induction false} SubseqTransitive(a: string, b: string, c: string)
    requires IsSubseq(a, b) && IsSubseq(b, c)
    ensures IsSubseq(a, c)
    decreases |c|
  {
    if a != [] {
      assert b != [] && c != [];
      if b[0] == c[0] {
        if a[0] == b[0] {
          SubseqTransitive(a[1..], b[1..], c[1..]);
        } else {
          SubseqTransitive(a, b[1..], c[1..]);
        }
      } else {
        SubseqTransitive(a, b, c[1..]);
        if a[0] == c[0] {
          SubseqDropFirst(a, c[1..]);
        }
      }
    }
  }

  lemma {:induction false} SubseqRefl(a: string)
    ensures IsSubseq(a, a)
  {
    if a != [] {
      SubseqRefl(a[1..]);
    }
  }

  /** Every slice of a string is a subsequence of it. */
  lemma {:induction false} SliceIsSubseq(s: string, i: nat, j: nat)
    requires i <= j <= |s|
    ensures IsSubseq(s[i..j], s)
    decreases |s|
  {
    if i > 0 {
      SliceIsSubseq(s[1..], i - 1, j - 1);
      assert s[1..][i - 1..j - 1] == s[i..j];
      SubseqSkip(s[i..j], s[1..], s);
    } else if j < |s| {
      SubseqRefl(s[0..j]);
      PrefixExtend(s[0..j], s[0..j], s);
    } else {
      assert s[i..j] == s;
      SubseqRefl(s);
    }
  }

  lemma {:induction false} PrefixExtend(a: string, b: string, c: string)
    requires IsSubseq(a, b) && |b| <= |c| && c[..|b|] == b
    ensures IsSubseq(a, c)
    decreases |b|
  {
    if a != [] {
      assert b != [] && c != [];
      assert c[1..][..|b[1..]|] == b[1..];
      if a[0] == b[0] {
        PrefixExtend(a[1..], b[1..], c[1..]);
      } else {
        PrefixExtend(a, b[1..], c[1..]);
      }
    }
  }

  /** Python's `a < b` on `str`: code-point lexicographic order. */
  predicate LexLess(a: string, b: string) {
    if a == [] then b != []
    else if b == [] then false
    else if a[0] != b[0] then a[0] < b[0]
    else LexLess(a[1..], b[1..])
  }

  lemma {:induction false} LexLessIrreflexive(a: string)
    ensures !LexLess(a, a)
  {
    if a != [] {
      LexLessIrreflexive(a[1..]);
    }
  }

  lemma {:induction false} LexLessTransitive(a: string, b: string, c: string)
    requires LexLess(a, b) && LexLess(b, c)
    ensures LexLess(a, c)
  {
    if a != [] && b != [] && c != [] && a[0] == b[0] && b[0] == c[0] {
      LexLessTransitive(a[1..], b[1..], c[1..]);
    }
  }

  lemma {:induction false} LexLessTotal(a: string, b: string)
    ensures a == b || LexLess(a, b) || LexLess(b, a)
  {
    if a != [] && b != [] && a[0] == b[0] {
      LexLessTotal(a[1..], b[1..]);
      if a[1..] == b[1..] {
        assert a == [a[0]] + a[1..] && b == [b[0]] + b[1..];
      }
    }
  }

  lemma {:induction false} LexLessAsymmetric(a: string, b: string)
    requires LexLess(a, b)
    ensures !LexLess(b, a)
  {
    if a != [] && b != [] && a[0] == b[0] {
      LexLessAsymmetric(a[1..], b[1..]);
    }
  }
}
