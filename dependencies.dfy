/** The dependency grammar of the converter (`VERSION_DEPENDENCY_REGEX` in
    conda_build/cran.py): a package name, an optional parenthesised version
    constraint and an optional bracketed architecture list, with optional
    whitespace around each part.

    Every repetition in the pattern is greedy and stops at a character the next
    part cannot start with, so the pattern never needs to backtrack: it is
    recognised here part by part, each part taking the longest run of its
    character class. `Scan` and `ScanSpelled` together show that the accepted
    texts are exactly the spellings of well-formed dependencies. */
module Dependencies {
  import opened Text

  predicate IsAsciiLetter(c: char) {
    'a' <= c <= 'z' || 'A' <= c <= 'Z'
  }

  predicate IsDigit(c: char) {
    '0' <= c <= '9'
  }

  /** `[a-zA-Z0-9.+\-]` */
  predicate IsNameChar(c: char) {
    IsAsciiLetter(c) || IsDigit(c) || c == '.' || c == '+' || c == '-'
  }

  /** `[>=<]` */
  predicate IsRelopChar(c: char) {
    c == '>' || c == '=' || c == '<'
  }

  /** `[0-9a-zA-Z:\-+~.]` */
  predicate IsVersionChar(c: char) {
    IsAsciiLetter(c) || IsDigit(c) || c == ':' || c == '-' || c == '+' || c == '~' || c == '.'
  }

  /** `\w`, for the ASCII range. */
  predicate IsWordChar(c: char) {
    IsAsciiLetter(c) || IsDigit(c) || c == '_'
  }

  /** `[\s!\w\-]` */
  predicate IsArchChar(c: char) {
    IsSpace(c) || c == '!' || IsWordChar(c) || c == '-'
  }

  predicate AllChars(s: string, p: char -> bool) {
    forall i :: 0 <= i < |s| ==> p(s[i])
  }

  /** `s` is empty or does not start with a character of the class. */
  predicate StopsBefore(s: string, p: char -> bool) {
    s == [] || !p(s[0])
  }

  /** The longest prefix of `s` in the class, and what follows it. */
  function TakeWhile(s: string, p: char -> bool): (r: (string, string))
    ensures r.0 + r.1 == s
    ensures AllChars(r.0, p) && StopsBefore(r.1, p)
    decreases |s|
  {
    if s == [] || !p(s[0]) then ([], s)
    else
      var t := TakeWhile(s[1..], p);
      ([s[0]] + t.0, t.1)
  }

  /** A run of the class followed by a character outside it is what `TakeWhile` takes. */
  lemma {:induction false} TakeWhileExact(a: string, b: string, p: char -> bool)
    requires AllChars(a, p) && StopsBefore(b, p)
    ensures TakeWhile(a + b, p) == (a, b)
    decreases |a|
  {
    if a == [] {
      assert a + b == b;
    } else {
      assert (a + b)[1..] == a[1..] + b;
      TakeWhileExact(a[1..], b, p);
      assert [a[0]] + a[1..] == a;
    }
  }

  // ---------------------------------------------------------------------------
  // What a match yields

  datatype Constraint = Constraint(relop: string, version: string)

  /** The groups of a match: `name`, `relop` and `version` (present together)
      and `archs`. */
  datatype Dependency = Dependency(name: string, constraint: Option<Constraint>, archs: Option<string>)

  predicate WellFormed(d: Dependency) {
    && d.name != [] && AllChars(d.name, IsNameChar)
    && (d.constraint.Some? ==>
          && d.constraint.value.relop != [] && AllChars(d.constraint.value.relop, IsRelopChar)
          && d.constraint.value.version != [] && AllChars(d.constraint.value.version, IsVersionChar))
    && (d.archs.Some? ==> d.archs.value != [] && AllChars(d.archs.value, IsArchChar))
  }

  /** What each of the pattern's seven `\s*` consumed. */
  datatype Layout = Layout(lead: string, beforeParen: string, afterParen: string, afterRelop: string,
                           beforeClose: string, beforeBracket: string, trail: string)

  /** All of a layout's whitespace, and none around a part that is absent. */
  predicate Fits(d: Dependency, l: Layout) {
    && AllChars(l.lead, IsSpace) && AllChars(l.beforeParen, IsSpace) && AllChars(l.afterParen, IsSpace)
    && AllChars(l.afterRelop, IsSpace) && AllChars(l.beforeClose, IsSpace)
    && AllChars(l.beforeBracket, IsSpace) && AllChars(l.trail, IsSpace)
    && (d.constraint.None? ==> l.beforeParen == l.afterParen == l.afterRelop == l.beforeClose == "")
    && (d.archs.None? ==> l.beforeBracket == "")
  }

  function ArchsText(archs: Option<string>, beforeBracket: string, trail: string): string {
    match archs
    case None => trail
    case Some(a) => beforeBracket + ("[" + (a + ("]" + trail)))
  }

  function ConstraintText(c: Option<Constraint>, beforeParen: string, afterParen: string,
                          afterRelop: string, beforeClose: string, tail: string): string {
    match c
    case None => tail
    case Some(Constraint(relop, version)) =>
      beforeParen + ("(" + (afterParen + (relop + (afterRelop + (version + (beforeClose + (")" + tail)))))))
  }

  /** The text of a dependency laid out with the given whitespace. */
  function Spell(d: Dependency, l: Layout): string {
    l.lead + (d.name + ConstraintText(d.constraint, l.beforeParen, l.afterParen, l.afterRelop, l.beforeClose,
                                      ArchsText(d.archs, l.beforeBracket, l.trail)))
  }

  // ---------------------------------------------------------------------------
  // The recogniser

  /** `(\s*\[(?P<archs>[\s!\w\-]+)\])?\s*$` */
  function ScanArchs(s: string): (r: Option<(Option<string>, string, string)>)
    ensures r.Some? ==> ArchsText(r.value.0, r.value.1, r.value.2) == s
    ensures r.Some? ==> AllChars(r.value.1, IsSpace) && AllChars(r.value.2, IsSpace)
    ensures r.Some? && r.value.0.None? ==> r.value.1 == ""
    ensures r.Some? && r.value.0.Some? ==> r.value.0.value != [] && AllChars(r.value.0.value, IsArchChar)
  {
    var w := TakeWhile(s, IsSpace);
    if w.1 == [] then Some((None, "", w.0))
    else
      match ScanBracketed(w.1)
      case None => None
      case Some((archs, trail)) => Some((Some(archs), w.0, trail))
  }

  /** `\[(?P<archs>[\s!\w\-]+)\]\s*$`: the bracketed list and the white space
      after it, up to the end. */
  function ScanBracketed(t: string): (r: Option<(string, string)>)
    ensures r.Some? ==> "[" + (r.value.0 + ("]" + r.value.1)) == t
    ensures r.Some? ==> r.value.0 != [] && AllChars(r.value.0, IsArchChar) && AllChars(r.value.1, IsSpace)
  {
    if t == [] || t[0] != '[' then None
    else
      var a := TakeWhile(t[1..], IsArchChar);
      if a.0 == [] || a.1 == [] || a.1[0] != ']' then None
      else
        var w := TakeWhile(a.1[1..], IsSpace);
        if w.1 == [] then
          assert a.1 == "]" + w.0;
          Some((a.0, w.0))
        else None
  }

  /** `(\s*\(\s*(?P<relop>[>=<]+)\s*(?P<version>[0-9a-zA-Z:\-+~.]+)\s*\))?`,
      with what follows it. An opening parenthesis that does not start a whole
      constraint fails the match: nothing after the name may start with one. */
  function ScanConstraint(s: string): (r: Option<(Option<Constraint>, string, string, string, string, string)>)
    ensures r.Some? ==> ConstraintText(r.value.0, r.value.1, r.value.2, r.value.3, r.value.4, r.value.5) == s
    ensures r.Some? ==> AllChars(r.value.1, IsSpace) && AllChars(r.value.2, IsSpace)
                        && AllChars(r.value.3, IsSpace) && AllChars(r.value.4, IsSpace)
    ensures r.Some? && r.value.0.None? ==> r.value.1 == r.value.2 == r.value.3 == r.value.4 == "" && r.value.5 == s
    ensures r.Some? && r.value.0.Some? ==>
              && r.value.0.value.relop != [] && AllChars(r.value.0.value.relop, IsRelopChar)
              && r.value.0.value.version != [] && AllChars(r.value.0.value.version, IsVersionChar)
  {
    var w := TakeWhile(s, IsSpace);
    if w.1 == [] || w.1[0] != '(' then Some((None, "", "", "", "", s))
    else
      var w2 := TakeWhile(w.1[1..], IsSpace);
      var relop := TakeWhile(w2.1, IsRelopChar);
      var w3 := TakeWhile(relop.1, IsSpace);
      var version := TakeWhile(w3.1, IsVersionChar);
      var w4 := TakeWhile(version.1, IsSpace);
      if relop.0 == [] || version.0 == [] || w4.1 == [] || w4.1[0] != ')' then None
      else
        assert w.1 == "(" + w.1[1..] && w4.1 == ")" + w4.1[1..];
        Some((Some(Constraint(relop.0, version.0)), w.0, w2.0, w3.0, w4.0, w4.1[1..]))
  }

  /** `VERSION_DEPENDENCY_REGEX.match(s)`: the groups of the match and the
      whitespace between them. */
  function Scan(s: string): Option<(Dependency, Layout)> {
    var lead := TakeWhile(s, IsSpace);
    var name := TakeWhile(lead.1, IsNameChar);
    if name.0 == [] then None
    else
      match ScanConstraint(name.1)
      case None => None
      case Some((c, bp, ap, ar, bc, rest)) =>
        match ScanArchs(rest)
        case None => None
        case Some((archs, bb, trail)) =>
          Some((Dependency(name.0, c, archs), Layout(lead.0, bp, ap, ar, bc, bb, trail)))
  }

  /** What the recogniser accepts is the spelling of a well-formed dependency. */
  lemma ScanSound(s: string)
    requires Scan(s).Some?
    ensures WellFormed(Scan(s).value.0) && Fits(Scan(s).value.0, Scan(s).value.1)
    ensures Spell(Scan(s).value.0, Scan(s).value.1) == s
  {
    var lead := TakeWhile(s, IsSpace);
    var name := TakeWhile(lead.1, IsNameChar);
    var c := ScanConstraint(name.1).value;
    var a := ScanArchs(c.5).value;
    assert Scan(s).value.0 == Dependency(name.0, c.0, a.0);
  }

  /** The groups of a match, when the token matches. */
  function Match(s: string): (r: Option<Dependency>)
    ensures r.Some? ==> WellFormed(r.value)
  {
    match Scan(s)
    case None => None
    case Some((d, _)) => ScanSound(s); Some(d)
  }

  // ---------------------------------------------------------------------------
  // Every spelling of a well-formed dependency matches

  lemma ArchsScanned(archs: Option<string>, beforeBracket: string, trail: string)
    requires AllChars(beforeBracket, IsSpace) && AllChars(trail, IsSpace)
    requires archs.None? ==> beforeBracket == ""
    requires archs.Some? ==> archs.value != [] && AllChars(archs.value, IsArchChar)
    ensures ScanArchs(ArchsText(archs, beforeBracket, trail)) == Some((archs, beforeBracket, trail))
  {
    TakeWhileExact(trail, [], IsSpace);
    assert trail + [] == trail;
    match archs
    case None =>
    case Some(a) =>
      var rest := "[" + (a + ("]" + trail));
      TakeWhileExact(beforeBracket, rest, IsSpace);
      BracketedScanned(a, trail);
  }

  lemma BracketedScanned(archs: string, trail: string)
    requires archs != [] && AllChars(archs, IsArchChar) && AllChars(trail, IsSpace)
    ensures ScanBracketed("[" + (archs + ("]" + trail))) == Some((archs, trail))
  {
    var t := "[" + (archs + ("]" + trail));
    assert t[1..] == archs + ("]" + trail);
    TakeWhileExact(archs, "]" + trail, IsArchChar);
    assert ("]" + trail)[1..] == trail;
    TakeWhileExact(trail, [], IsSpace);
    assert trail + [] == trail;
  }

  /** What follows the name and the constraint has, after its whitespace, no
      opening parenthesis. */
  predicate NoParenAhead(tail: string) {
    var rest := TakeWhile(tail, IsSpace).1;
    rest == [] || rest[0] != '('
  }

  lemma ArchsTextNoParen(archs: Option<string>, beforeBracket: string, trail: string)
    requires AllChars(beforeBracket, IsSpace) && AllChars(trail, IsSpace)
    requires archs.None? ==> beforeBracket == ""
    ensures NoParenAhead(ArchsText(archs, beforeBracket, trail))
  {
    match archs
    case None =>
      TakeWhileExact(trail, [], IsSpace);
      assert trail + [] == trail;
    case Some(a) =>
      TakeWhileExact(beforeBracket, "[" + (a + ("]" + trail)), IsSpace);
  }

  /** The inside of the parentheses, from the operator to the closing one. */
  lemma ParenthesisedScanned(relop: string, afterRelop: string, version: string, beforeClose: string, rest: string)
    requires relop != [] && AllChars(relop, IsRelopChar) && version != [] && AllChars(version, IsVersionChar)
    requires AllChars(afterRelop, IsSpace) && AllChars(beforeClose, IsSpace)
    requires rest != [] && rest[0] == ')'
    ensures var s3 := version + (beforeClose + rest);
            var s2 := afterRelop + s3;
            && TakeWhile(relop + s2, IsRelopChar) == (relop, s2)
            && TakeWhile(s2, IsSpace) == (afterRelop, s3)
            && TakeWhile(s3, IsVersionChar) == (version, beforeClose + rest)
            && TakeWhile(beforeClose + rest, IsSpace) == (beforeClose, rest)
  {
    var s3 := version + (beforeClose + rest);
    var s2 := afterRelop + s3;
    TakeWhileExact(relop, s2, IsRelopChar);
    TakeWhileExact(afterRelop, s3, IsSpace);
    TakeWhileExact(version, beforeClose + rest, IsVersionChar);
    TakeWhileExact(beforeClose, rest, IsSpace);
  }

  lemma ConstraintScanned(c: Option<Constraint>, beforeParen: string, afterParen: string,
                          afterRelop: string, beforeClose: string, tail: string)
    requires AllChars(beforeParen, IsSpace) && AllChars(afterParen, IsSpace)
    requires AllChars(afterRelop, IsSpace) && AllChars(beforeClose, IsSpace)
    requires c.None? ==> beforeParen == afterParen == afterRelop == beforeClose == "" && NoParenAhead(tail)
    requires c.Some? ==> && c.value.relop != [] && AllChars(c.value.relop, IsRelopChar)
                         && c.value.version != [] && AllChars(c.value.version, IsVersionChar)
    ensures ScanConstraint(ConstraintText(c, beforeParen, afterParen, afterRelop, beforeClose, tail))
            == Some((c, beforeParen, afterParen, afterRelop, beforeClose, tail))
  {
    match c
    case None =>
    case Some(Constraint(relop, version)) =>
      var s5 := ")" + tail;
      var s1 := relop + (afterRelop + (version + (beforeClose + s5)));
      var s0 := afterParen + s1;
      TakeWhileExact(beforeParen, "(" + s0, IsSpace);
      assert ("(" + s0)[1..] == s0;
      TakeWhileExact(afterParen, s1, IsSpace);
      ParenthesisedScanned(relop, afterRelop, version, beforeClose, s5);
      assert s5[1..] == tail;
  }

  /** Every spelling of a well-formed dependency matches, with exactly its
      groups and its whitespace: with `ScanSound`, the texts the pattern
      accepts are exactly these spellings. */
  lemma ScanSpelled(d: Dependency, l: Layout)
    requires WellFormed(d) && Fits(d, l)
    ensures Scan(Spell(d, l)) == Some((d, l))
  {
    var archsText := ArchsText(d.archs, l.beforeBracket, l.trail);
    ArchsScanned(d.archs, l.beforeBracket, l.trail);
    ArchsTextNoParen(d.archs, l.beforeBracket, l.trail);
    var rest := ConstraintText(d.constraint, l.beforeParen, l.afterParen, l.afterRelop, l.beforeClose, archsText);
    ConstraintScanned(d.constraint, l.beforeParen, l.afterParen, l.afterRelop, l.beforeClose, archsText);
    NameEndsBeforeRest(d, l);
    TakeWhileExact(d.name, rest, IsNameChar);
    NameStopsLead(d.name, rest);
    TakeWhileExact(l.lead, d.name + rest, IsSpace);
  }

  /** A token matches with groups `d` exactly when it spells the well-formed
      dependency `d` with some whitespace the pattern allows. */
  lemma MatchExactly(s: string, d: Dependency)
    ensures Match(s) == Some(d) <==> exists l :: WellFormed(d) && Fits(d, l) && Spell(d, l) == s
  {
    if Match(s) == Some(d) {
      ScanSound(s);
      var l := Scan(s).value.1;
      assert WellFormed(d) && Fits(d, l) && Spell(d, l) == s;
    }
    if exists l :: WellFormed(d) && Fits(d, l) && Spell(d, l) == s {
      var l :| WellFormed(d) && Fits(d, l) && Spell(d, l) == s;
      ScanSpelled(d, l);
    }
  }

  lemma SpaceIsNoNameChar(c: char)
    requires IsSpace(c)
    ensures !IsNameChar(c)
  {
  }

  /** White space, `(` and `[` cannot continue a name. */
  lemma StopsName(s: string)
    requires s == [] || IsSpace(s[0]) || s[0] == '(' || s[0] == '['
    ensures StopsBefore(s, IsNameChar)
  {
    if s != [] && IsSpace(s[0]) {
      SpaceIsNoNameChar(s[0]);
    }
  }

  /** A name is not white space, so the leading white space ends where it starts. */
  lemma NameStopsLead(name: string, rest: string)
    requires name != [] && AllChars(name, IsNameChar)
    ensures StopsBefore(name + rest, IsSpace)
  {
    assert (name + rest)[0] == name[0];
    if IsSpace(name[0]) {
      SpaceIsNoNameChar(name[0]);
    }
  }

  /** What follows the name of a spelled dependency cannot continue the name. */
  lemma NameEndsBeforeRest(d: Dependency, l: Layout)
    requires Fits(d, l)
    ensures StopsBefore(ConstraintText(d.constraint, l.beforeParen, l.afterParen, l.afterRelop, l.beforeClose,
                                       ArchsText(d.archs, l.beforeBracket, l.trail)), IsNameChar)
  {
    var archsText := ArchsText(d.archs, l.beforeBracket, l.trail);
    match d.constraint
    case Some(Constraint(relop, version)) =>
      var tail := "(" + (l.afterParen + (relop + (l.afterRelop + (version + (l.beforeClose + (")" + archsText))))));
      assert l.beforeParen != [] ==> (l.beforeParen + tail)[0] == l.beforeParen[0];
      StopsName(l.beforeParen + tail);
    case None =>
      match d.archs
      case Some(a) =>
        var tail := "[" + (a + ("]" + l.trail));
        assert l.beforeBracket != [] ==> (l.beforeBracket + tail)[0] == l.beforeBracket[0];
        StopsName(l.beforeBracket + tail);
      case None =>
        StopsName(l.trail);
  }

  // ---------------------------------------------------------------------------
  // Tokens from CRAN's own records

  /** A bare name matches with no constraint and no architectures. */
  lemma MatchBareName()
    ensures Match("pbapply") == Some(Dependency("pbapply", None, None))
  {
    var d := Dependency("pbapply", None, None);
    var l := Layout("", "", "", "", "", "", "");
    assert Spell(d, l) == "pbapply";
    ScanSpelled(d, l);
  }

  /** A parenthesised constraint yields its operator and its version. */
  lemma MatchConstraint()
    ensures Match("R (>= 2.15.0)") == Some(Dependency("R", Some(Constraint(">=", "2.15.0")), None))
  {
    var d := Dependency("R", Some(Constraint(">=", "2.15.0")), None);
    var l := Layout("", " ", "", " ", "", "", "");
    assert Spell(d, l) == "R (>= 2.15.0)";
    ScanSpelled(d, l);
  }

  /** A bracketed list yields the `archs` group. */
  lemma MatchArchs()
    ensures Match("xtable [!i386]") == Some(Dependency("xtable", None, Some("!i386")))
  {
    var d := Dependency("xtable", None, Some("!i386"));
    var l := Layout("", "", "", "", "", " ", "");
    assert Spell(d, l) == "xtable [!i386]";
    ScanSpelled(d, l);
  }

  /** A name followed by white space and then anything that can start neither
      a constraint nor an architecture list does not match. */
  lemma NameThenJunkRejected(name: string, ws: string, rest: string)
    requires name != [] && AllChars(name, IsNameChar) && AllChars(ws, IsSpace)
    requires rest != [] && !IsSpace(rest[0]) && !IsNameChar(rest[0]) && rest[0] != '(' && rest[0] != '['
    ensures Match(name + (ws + rest)) == None
  {
    var s := name + (ws + rest);
    NameStopsLead(name, ws + rest);
    TakeWhileExact([], s, IsSpace);
    assert [] + s == s;
    assert StopsBefore(ws + rest, IsNameChar) by {
      if ws != [] {
        assert (ws + rest)[0] == ws[0];
        SpaceIsNoNameChar(ws[0]);
      }
    }
    TakeWhileExact(name, ws + rest, IsNameChar);
    TakeWhileExact(ws, rest, IsSpace);
    assert ScanConstraint(ws + rest) == Some((None, "", "", "", "", ws + rest));
    assert ScanArchs(ws + rest) == None;
  }

  /** An operator outside parentheses is not part of the grammar. */
  lemma NoMatchBareOperator()
    ensures Match("R >= 2.15.0") == None
  {
    assert "R >= 2.15.0" == "R" + (" " + ">= 2.15.0");
    NameThenJunkRejected("R", " ", ">= 2.15.0");
  }
}
