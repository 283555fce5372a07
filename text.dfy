/** The handful of Python `str` operations the CRAN converter relies on, written
    over `string` (= `seq<char>`, one element per Unicode code point). */
module Text {

  /** `str.isspace()`, which is also what the `\s` class of Python's `re` matches
      in a `str` pattern: CPython's table of whitespace code points. */
  predicate IsSpace(c: char) {
    c == ' ' || ('\t' <= c <= '\r') || ('\U{1C}' <= c <= '\U{1F}')
    || c == '\U{85}' || c == '\U{A0}' || c == '\U{1680}'
    || ('\U{2000}' <= c <= '\U{200A}') || c == '\U{2028}' || c == '\U{2029}'
    || c == '\U{202F}' || c == '\U{205F}' || c == '\U{3000}'
  }

  /** The line boundaries recognised by `str.splitlines()` ("\r\n" counts as one). */
  predicate IsLineBreak(c: char) {
    c == '\n' || c == '\r' || c == '\U{0B}' || c == '\U{0C}'
    || ('\U{1C}' <= c <= '\U{1E}') || c == '\U{85}' || c == '\U{2028}' || c == '\U{2029}'
  }

  predicate StartsWith(s: string, prefix: string) {
    |prefix| <= |s| && s[..|prefix|] == prefix
  }

  /** `sep` occurs in `s` starting at index `i`. */
  predicate OccursAt(s: string, sep: string, i: nat) {
    i + |sep| <= |s| && s[i..i + |sep|] == sep
  }

  predicate Contains(s: string, sep: string) {
    exists i: nat | i <= |s| :: OccursAt(s, sep, i)
  }

  // ---------------------------------------------------------------------------
  // Stripping

  /** `s.lstrip()`: drops the longest all-whitespace prefix. */
  function LStrip(s: string): string
    decreases |s|
  {
    if s != [] && IsSpace(s[0]) then LStrip(s[1..]) else s
  }

  /** `s.rstrip()`: drops the longest all-whitespace suffix. */
  function RStrip(s: string): string
    decreases |s|
  {
    if s != [] && IsSpace(s[|s| - 1]) then RStrip(s[..|s| - 1]) else s
  }

  /** `lstrip` keeps a suffix, drops only white space, and leaves none in front. */
  lemma {:induction false} LStripShape(s: string)
    ensures var r := LStrip(s);
            && |r| <= |s| && r == s[|s| - |r|..]
            && (forall i :: 0 <= i < |s| - |r| ==> IsSpace(s[i]))
            && (r == [] || !IsSpace(r[0]))
    decreases |s|
  {
    if s != [] && IsSpace(s[0]) {
      LStripShape(s[1..]);
      var r := LStrip(s);
      forall i | 1 <= i < |s| - |r| ensures IsSpace(s[i]) {
        assert s[i] == s[1..][i - 1];
      }
    }
  }

  /** `rstrip` keeps a prefix, drops only white space, and leaves none behind. */
  lemma {:induction false} RStripShape(s: string)
    ensures var r := RStrip(s);
            && |r| <= |s| && r == s[..|r|]
            && (forall i :: |r| <= i < |s| ==> IsSpace(s[i]))
            && (r == [] || !IsSpace(r[|r| - 1]))
    decreases |s|
  {
    if s != [] && IsSpace(s[|s| - 1]) {
      RStripShape(s[..|s| - 1]);
    }
  }

  /** `s.strip()`: the part of `s` left between a white-space prefix and a
      white-space suffix, with no white space at either of its own ends. */
  function Strip(s: string): (r: string)
    ensures r == [] || (!IsSpace(r[0]) && !IsSpace(r[|r| - 1]))
    ensures exists a, b :: 0 <= a <= b <= |s| && r == s[a..b]
                           && (forall i :: 0 <= i < a ==> IsSpace(s[i]))
                           && (forall i :: b <= i < |s| ==> IsSpace(s[i]))
    ensures |r| <= |s|
    ensures forall c <- r :: c in s
  {
    StripShape(s, |s| - |LStrip(s)|, |s| - |LStrip(s)| + |RStrip(LStrip(s))|);
    RStrip(LStrip(s))
  }

  /** `rstrip` after `lstrip` cuts `s` at `a` and `b`: only white space lies
      outside the cut, and none at the ends of what is left. */
  lemma StripShape(s: string, a: int, b: int)
    requires a == |s| - |LStrip(s)| && b == a + |RStrip(LStrip(s))|
    ensures var r := RStrip(LStrip(s));
            && (r == [] || (!IsSpace(r[0]) && !IsSpace(r[|r| - 1])))
            && 0 <= a <= b <= |s| && r == s[a..b]
            && (forall i :: 0 <= i < a ==> IsSpace(s[i]))
            && (forall i :: b <= i < |s| ==> IsSpace(s[i]))
            && forall c <- r :: c in s
  {
    var l := LStrip(s);
    LStripShape(s);
    RStripShape(l);
    var r := RStrip(l);
    assert r != [] ==> r[0] == l[0];
    assert r == s[a..b];
    forall i | b <= i < |s| ensures IsSpace(s[i]) {
      assert s[i] == l[i - a];
    }
    forall c <- r ensures c in s {
      var i :| 0 <= i < |r| && r[i] == c;
      assert s[a + i] == c;
    }
  }

  /** White space in front of a string does not change its `lstrip`. */
  lemma {:induction false} LStripSpaces(pre: string, x: string)
    requires forall c <- pre :: IsSpace(c)
    ensures LStrip(pre + x) == LStrip(x)
    decreases |pre|
  {
    if pre != [] {
      assert (pre + x)[0] == pre[0] && pre[0] in pre;
      assert (pre + x)[1..] == pre[1..] + x;
      assert LStrip(pre + x) == LStrip(pre[1..] + x);
      assert forall c <- pre[1..] :: c in pre;
      LStripSpaces(pre[1..], x);
    } else {
      assert pre + x == x;
    }
  }

  /** White space behind a string does not change its `rstrip`. */
  lemma {:induction false} RStripSpaces(x: string, post: string)
    requires forall c <- post :: IsSpace(c)
    ensures RStrip(x + post) == RStrip(x)
    decreases |post|
  {
    if post != [] {
      var n := |post|;
      assert (x + post)[|x + post| - 1] == post[n - 1] && post[n - 1] in post;
      assert (x + post)[..|x + post| - 1] == x + post[..n - 1];
      assert RStrip(x + post) == RStrip(x + post[..n - 1]);
      assert forall c <- post[..n - 1] :: c in post;
      RStripSpaces(x, post[..n - 1]);
    } else {
      assert x + post == x;
    }
  }

  /** `strip` gives back any string without white-space ends from behind any
      white-space padding. */
  lemma StripPadded(pre: string, t: string, post: string)
    requires forall c <- pre :: IsSpace(c)
    requires forall c <- post :: IsSpace(c)
    requires t == [] || (!IsSpace(t[0]) && !IsSpace(t[|t| - 1]))
    ensures Strip(pre + t + post) == t
  {
    assert pre + t + post == pre + (t + post);
    LStripSpaces(pre, t + post);
    if t == [] {
      assert t + post == [] + post;
      LStripSpaces(post, []);
      assert post + [] == post;
    } else {
      assert (t + post)[0] == t[0];
      RStripSpaces(t, post);
    }
  }

  /** Stripping twice is stripping once. */
  lemma StripIdempotent(s: string)
    ensures Strip(Strip(s)) == Strip(s)
  {
    var r := Strip(s);
    StripPadded([], r, []);
    assert [] + r + [] == r;
  }

  // ---------------------------------------------------------------------------
  // Splitting and joining

  /** The first index `j >= i` at which `sep` occurs in `s`, if any. */
  function FindFrom(s: string, sep: string, i: nat): (r: Option<nat>)
    requires sep != []
    ensures r.Some? ==> i <= r.value && OccursAt(s, sep, r.value)
    ensures r.Some? ==> forall j: nat :: i <= j < r.value ==> !OccursAt(s, sep, j)
    ensures r.None? ==> forall j: nat :: i <= j ==> !OccursAt(s, sep, j)
    decreases |s| - i
  {
    if i + |sep| > |s| then None
    else if s[i..i + |sep|] == sep then Some(i)
    else FindFrom(s, sep, i + 1)
  }

  datatype Option<+T> = None | Some(value: T)

  /** `s.split(sep)` for a non-empty separator: cut at the first occurrence,
      then split what follows it. */
  function Split(s: string, sep: string): (parts: seq<string>)
    requires sep != []
    decreases |s|
  {
    match FindFrom(s, sep, 0)
    case None => [s]
    case Some(i) => [s[..i]] + Split(s[i + |sep|..], sep)
  }

  /** `sep.join(xs)`. */
  function Join(xs: seq<string>, sep: string): string
    decreases |xs|
  {
    if xs == [] then ""
    else if |xs| == 1 then xs[0]
    else xs[0] + sep + Join(xs[1..], sep)
  }

  /** No piece that `Split` returns contains the separator, and there is always one. */
  lemma {:induction false} SplitPiecesAreFree(s: string, sep: string)
    requires sep != []
    ensures |Split(s, sep)| >= 1
    ensures forall p <- Split(s, sep) :: !Contains(p, sep)
    decreases |s|
  {
    match FindFrom(s, sep, 0)
    case None =>
    case Some(i) =>
      SplitPiecesAreFree(s[i + |sep|..], sep);
      forall j: nat | OccursAt(s[..i], sep, j) ensures false {
        assert OccursAt(s, sep, j);
      }
  }

  /** A text that does not contain the one-character string `[c]` has no `c`. */
  lemma CharAbsent(s: string, c: char)
    requires !Contains(s, [c])
    ensures c !in s
  {
    forall i | 0 <= i < |s| ensures s[i] != c {
      assert !OccursAt(s, [c], i);
      assert s[i..i + 1] == [s[i]];
    }
  }

  /** Joining the pieces back with the separator gives the original text. */
  lemma {:induction false} JoinSplit(s: string, sep: string)
    requires sep != []
    ensures Join(Split(s, sep), sep) == s
    decreases |s|
  {
    match FindFrom(s, sep, 0)
    case None =>
    case Some(i) =>
      var rest := s[i + |sep|..];
      JoinSplit(rest, sep);
      var tail := Split(rest, sep);
      assert Split(s, sep) == [s[..i]] + tail;
      JoinAroundSeparator(s[..i], sep, rest, tail);
      AroundOccurrence(s, sep, i);
  }

  lemma JoinAroundSeparator(head: string, sep: string, rest: string, tail: seq<string>)
    requires tail != [] && Join(tail, sep) == rest
    ensures Join([head] + tail, sep) == head + sep + rest
  {
    JoinCons(head, tail, sep);
  }

  /** A text is what comes before an occurrence of `sep`, `sep`, and what follows. */
  lemma AroundOccurrence(s: string, sep: string, i: nat)
    requires OccursAt(s, sep, i)
    ensures s == s[..i] + sep + s[i + |sep|..]
  {
    var head, rest := s[..i], s[i + |sep|..];
    assert s[i..] == sep + rest by {
      assert s[i..][..|sep|] == s[i..i + |sep|] && s[i..][|sep|..] == rest;
    }
    assert s == head + s[i..];
    Reassociate(head, sep, rest);
  }
  /** The last piece `Split` returns is what follows the last separator: a suffix of the text. */
  lemma LastPieceIsSuffix(s: string, sep: string)
    requires sep != []
    ensures var parts := Split(s, sep);
            |parts| >= 1 && |parts[|parts| - 1]| <= |s| && s[|s| - |parts[|parts| - 1]|..] == parts[|parts| - 1]
  {
    var parts := Split(s, sep);
    SplitPiecesAreFree(s, sep);
    JoinSplit(s, sep);
    JoinedLastIsSuffix(s, parts, sep);
  }

  lemma JoinedLastIsSuffix(s: string, parts: seq<string>, sep: string)
    requires parts != [] && Join(parts, sep) == s
    ensures |parts[|parts| - 1]| <= |s| && s[|s| - |parts[|parts| - 1]|..] == parts[|parts| - 1]
  {
    JoinLastIsSuffix(parts, sep);
  }

  /** The last piece of a join ends it. */
  lemma {:induction false} JoinLastIsSuffix(xs: seq<string>, sep: string)
    requires xs != []
    ensures var j := Join(xs, sep);
            |xs[|xs| - 1]| <= |j| && j[|j| - |xs[|xs| - 1]|..] == xs[|xs| - 1]
    decreases |xs|
  {
    if |xs| > 1 {
      JoinLastIsSuffix(xs[1..], sep);
      var last := xs[|xs| - 1];
      var rest := Join(xs[1..], sep);
      assert xs[1..][|xs[1..]| - 1] == last;
      var head := xs[0] + sep;
      assert Join(xs, sep) == head + rest;
      assert (head + rest)[|head| + |rest| - |last|..] == rest[|rest| - |last|..];
    }
  }

  lemma Reassociate(a: string, b: string, c: string)
    ensures (a + b) + c == a + (b + c)
  {
  }

  lemma JoinCons(x: string, xs: seq<string>, sep: string)
    ensures Join([x] + xs, sep) == if xs == [] then x else x + sep + Join(xs, sep)
  {
    assert ([x] + xs)[1..] == xs;
  }

  /** For a one-character separator the converse holds too: splitting a join of
      pieces that do not contain the character gives the pieces back. */
  lemma {:induction false} SplitJoinChar(xs: seq<string>, c: char)
    requires xs != []
    requires forall x <- xs :: c !in x
    ensures Split(Join(xs, [c]), [c]) == xs
    decreases |xs|
  {
    if |xs| == 1 {
      assert FindFrom(xs[0], [c], 0).None? by { NoCharNoOccurrence(xs[0], c, 0); }
    } else {
      var s := Join(xs, [c]);
      assert s == xs[0] + [c] + Join(xs[1..], [c]);
      NoCharNoOccurrence(xs[0], c, 0);
      FindFromPrefix(xs[0], [c] + Join(xs[1..], [c]), c);
      assert s[|xs[0]| + 1..] == Join(xs[1..], [c]);
      assert s[..|xs[0]|] == xs[0];
      SplitJoinChar(xs[1..], c);
    }
  }

  lemma NoCharNoOccurrence(x: string, c: char, i: nat)
    requires c !in x
    ensures FindFrom(x, [c], i).None?
    decreases |x| - i
  {
    if i + 1 <= |x| {
      assert x[i..i + 1] == [x[i]];
      NoCharNoOccurrence(x, c, i + 1);
    }
  }

  lemma FindFromPrefix(x: string, rest: string, c: char)
    requires c !in x && rest != [] && rest[0] == c
    ensures FindFrom(x + rest, [c], 0) == Some(|x|)
  {
    var s := x + rest;
    assert OccursAt(s, [c], |x|) by { assert s[|x|..|x| + 1] == [c]; }
    forall j: nat | j < |x| ensures !OccursAt(s, [c], j) {
      assert s[j..j + 1] == [x[j]];
    }
  }

  /** `s.splitlines()`: cut at every line boundary ("\r\n" is one boundary); a
      trailing boundary does not start an extra empty line. */
  function SplitLines(s: string): (lines: seq<string>)
    ensures forall l <- lines, c <- l :: !IsLineBreak(c)
  {
    LinesFrom(s, "")
  }

  function LinesFrom(s: string, current: string): (lines: seq<string>)
    requires forall c <- current :: !IsLineBreak(c)
    ensures forall l <- lines, c <- l :: !IsLineBreak(c)
    decreases |s|
  {
    if s == [] then (if current == [] then [] else [current])
    else if s[0] == '\r' && |s| > 1 && s[1] == '\n' then [current] + LinesFrom(s[2..], "")
    else if IsLineBreak(s[0]) then [current] + LinesFrom(s[1..], "")
    else LinesFrom(s[1..], current + [s[0]])
  }

  /** Text whose only line boundaries are `\n`, and that does not end in one. */
  predicate NewlineText(s: string) {
    (forall i :: 0 <= i < |s| ==> s[i] == '\n' || !IsLineBreak(s[i]))
    && (s == [] || s[|s| - 1] != '\n')
  }

  lemma {:induction false} LinesFromJoin(s: string, current: string)
    requires NewlineText(s) && forall c <- current :: !IsLineBreak(c)
    ensures Join(LinesFrom(s, current), "\n") == current + s
    decreases |s|
  {
    if s == [] {
      assert current + s == current;
    } else {
      NewlineTextTail(s);
      if s[0] == '\n' {
        LinesFromJoin(s[1..], "");
        NewlineJoin(current, s, LinesFrom(s[1..], ""));
      } else {
        LinesFromJoin(s[1..], current + [s[0]]);
        assert (current + [s[0]]) + s[1..] == current + s;
      }
    }
  }

  lemma NewlineTextTail(s: string)
    requires NewlineText(s) && s != []
    ensures NewlineText(s[1..])
    ensures s[0] == '\n' ==> s[1..] != []
  {
  }

  lemma NewlineJoin(current: string, s: string, rest: seq<string>)
    requires s != [] && s[0] == '\n' && s[1..] != [] && Join(rest, "\n") == s[1..]
    ensures Join([current] + rest, "\n") == current + s
  {
    JoinCons(current, rest, "\n");
    assert s == "\n" + s[1..];
  }

  /** Joining the lines of a text whose only boundaries are `\n` with `\n`
      gives the text back. */
  lemma SplitLinesJoin(s: string)
    requires NewlineText(s)
    ensures Join(SplitLines(s), "\n") == s
  {
    LinesFromJoin(s, "");
    assert "" + s == s;
  }

  /** On such a text, other than the empty one, `splitlines()` is
      `split('\n')`. */
  lemma SplitLinesIsSplit(s: string)
    requires NewlineText(s) && s != []
    ensures SplitLines(s) == Split(s, "\n")
  {
    var lines := SplitLines(s);
    SplitLinesJoin(s);
    assert lines != [];
    forall l <- lines
      ensures '\n' !in l
    {
      assert forall c <- l :: !IsLineBreak(c);
    }
    SplitJoinChar(lines, '\n');
  }

  // ---------------------------------------------------------------------------
  // Character mapping

  function LowerChar(c: char): char {
    if 'A' <= c <= 'Z' then (c as int + 32) as char else c
  }

  /** `s.lower()`, for the ASCII letters. */
  function Lower(s: string): (r: string)
    ensures |r| == |s|
    ensures forall i :: 0 <= i < |s| ==> r[i] == LowerChar(s[i])
    ensures forall c <- r :: !('A' <= c <= 'Z')
  {
    seq(|s|, i requires 0 <= i < |s| => LowerChar(s[i]))
  }

  /** Lower-casing twice is lower-casing once. */
  lemma LowerIdempotent(s: string)
    ensures Lower(Lower(s)) == Lower(s)
  {
    assert forall i :: 0 <= i < |s| ==> LowerChar(LowerChar(s[i])) == LowerChar(s[i]);
  }

  /** `s.replace(a, b)` for one-character `a` and `b`. */
  function ReplaceChar(s: string, a: char, b: char): (r: string)
  {
    seq(|s|, i requires 0 <= i < |s| => if s[i] == a then b else s[i])
  }

  // ---------------------------------------------------------------------------
  // Ordering: Python compares `str` values code point by code point, and a
  // proper prefix comes first.

  predicate Below(a: string, b: string)
    decreases |a|
  {
    |b| > 0 && (|a| == 0 || a[0] < b[0] || (a[0] == b[0] && Below(a[1..], b[1..])))
  }

  lemma {:induction false} BelowIrreflexive(a: string)
    ensures !Below(a, a)
    decreases |a|
  {
    if |a| > 0 { BelowIrreflexive(a[1..]); }
  }

  lemma {:induction false} BelowTransitive(a: string, b: string, c: string)
    requires Below(a, b) && Below(b, c)
    ensures Below(a, c)
    decreases |a|
  {
    if |a| > 0 && a[0] == b[0] && b[0] == c[0] {
      BelowTransitive(a[1..], b[1..], c[1..]);
    }
  }

  lemma {:induction false} BelowTotal(a: string, b: string)
    requires a != b
    ensures Below(a, b) || Below(b, a)
    decreases |a|
  {
    if |a| > 0 && |b| > 0 && a[0] == b[0] {
      assert a == [a[0]] + a[1..] && b == [b[0]] + b[1..];
      BelowTotal(a[1..], b[1..]);
    }
  }

  lemma BelowAsymmetric(a: string, b: string)
    requires Below(a, b)
    ensures !Below(b, a)
  {
    if Below(b, a) {
      BelowTransitive(a, b, a);
      BelowIrreflexive(a);
    }
  }

  predicate StrictlySorted(xs: seq<string>) {
    forall i, j :: 0 <= i < j < |xs| ==> Below(xs[i], xs[j])
  }

  predicate IsMinimum(m: string, s: set<string>) {
    m in s && forall x <- s :: x != m ==> Below(m, x)
  }

  lemma {:induction false} MinimumExists(s: set<string>)
    requires s != {}
    ensures exists m :: IsMinimum(m, s)
    decreases s
  {
    var x :| x in s;
    if s - {x} == {} {
      assert s == {x};
      assert IsMinimum(x, s);
    } else {
      MinimumExists(s - {x});
      var m :| IsMinimum(m, s - {x});
      if Below(x, m) {
        forall y <- s | y != x ensures Below(x, y) {
          if y != m { BelowTransitive(x, m, y); }
        }
        assert IsMinimum(x, s);
      } else {
        BelowTotal(x, m);
        assert IsMinimum(m, s);
      }
    }
  }

  /** The elements of a finite set of strings in ascending order: what Python's
      `sorted()` returns for the keys of a dictionary. */
  ghost function SortedListing(s: set<string>): (r: seq<string>)
    ensures StrictlySorted(r)
    ensures forall x :: x in r <==> x in s
    ensures |r| == |s|
    decreases s
  {
    if s == {} then []
    else
      MinimumExists(s);
      var m :| IsMinimum(m, s);
      var tail := SortedListing(s - {m});
      assert forall x <- tail :: Below(m, x);
      [m] + tail
  }

  lemma HeadIsElement(xs: seq<string>)
    ensures xs != [] ==> xs[0] in xs
  {
  }

  /** A strictly ascending sequence is determined by its elements. */
  lemma {:induction false} SortedUnique(a: seq<string>, b: seq<string>)
    requires StrictlySorted(a) && StrictlySorted(b)
    requires forall x :: x in a <==> x in b
    ensures a == b
    decreases |a|
  {
    HeadIsElement(a);
    HeadIsElement(b);
    if a != [] && b != [] {
      if a[0] != b[0] {
        assert a[0] in b;
        assert b[0] in a;
        var i :| 0 <= i < |b| && b[i] == a[0];
        var j :| 0 <= j < |a| && a[j] == b[0];
        BelowAsymmetric(b[0], a[0]);
      }
      forall x ensures x in a[1..] <==> x in b[1..] {
        if x in a[1..] {
          var k :| 1 <= k < |a| && a[k] == x;
          assert Below(a[0], x);
          BelowIrreflexive(x);
          assert x in a && x in b;
          var k' :| 0 <= k' < |b| && b[k'] == x;
          assert b[1..][k' - 1] == x;
        }
        if x in b[1..] {
          var k :| 1 <= k < |b| && b[k] == x;
          assert Below(b[0], x);
          BelowIrreflexive(x);
          assert x in b && x in a;
          var k' :| 0 <= k' < |a| && a[k'] == x;
          assert a[1..][k' - 1] == x;
        }
      }
      SortedUnique(a[1..], b[1..]);
    }
  }

  /** Python's `sorted()` applied to a set of names: repeatedly takes the least
      remaining one. */
  method SortNames(keys: set<string>) returns (names: seq<string>)
    ensures names == SortedListing(keys)
  {
    names := [];
    var rest := keys;
    while rest != {}
      invariant rest <= keys
      invariant StrictlySorted(names)
      invariant forall x :: x in keys <==> x in rest || x in names
      invariant forall x <- names, y <- rest :: Below(x, y)
      decreases rest
    {
      MinimumExists(rest);
      var m :| IsMinimum(m, rest);
      forall y <- rest | y != m ensures Below(m, y) { }
      names := names + [m];
      forall x <- names, y <- rest - {m} ensures Below(x, y) { }
      rest := rest - {m};
    }
    forall x <- names ensures x !in rest { }
    SortedUnique(names, SortedListing(keys));
  }
}
