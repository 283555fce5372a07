/** From a record's dependency fields to the `depends` block of the recipe
    (the dependency part of `main` in conda_build/cran.py).

    The `Depends`, `Imports` and `LinkingTo` fields are cut at commas into
    tokens; every distinct token must match the dependency grammar without an
    architecture list; the constraint of each name is recorded; and the names
    are then emitted in sorted order as conda requirements, R first and R's
    base packages left out. */
module Resolver {
  import opened Text
  import opened Errors
  import opened Dependencies

  /** The packages that come with R itself and are never listed as requirements. */
  const BasePackageNames: seq<string> := [
    "base", "tools", "utils", "grDevices", "graphics", "stats", "datasets",
    "methods", "grid", "splines", "stats4", "tcltk", "compiler", "parallel"
  ]

  // ---------------------------------------------------------------------------
  // Tokens

  /** `[s.strip() for s in pieces if s.strip()]` */
  function StrippedPieces(pieces: seq<string>): (r: seq<string>)
    ensures forall t <- r :: t != [] && Strip(t) == t
    decreases |pieces|
  {
    if pieces == [] then []
    else
      var t := Strip(pieces[0]);
      StripIdempotent(pieces[0]);
      assert forall q <- pieces[1..] :: q in pieces;
      (if t != "" then [t] else []) + StrippedPieces(pieces[1..])
  }

  /** The tokens of one dependency field: its comma-separated parts, stripped,
      without the empty ones. */
  function Tokens(field: string): (r: seq<string>)
    ensures forall t <- r :: t != [] && ',' !in t && Strip(t) == t
  {
    var pieces := Split(field, ",");
    SplitPiecesAreFree(field, ",");
    forall p <- pieces ensures ',' !in p {
      CharAbsent(p, ',');
    }
    StrippedPiecesAvoid(pieces, ',');
    StrippedPieces(pieces)
  }

  lemma {:induction false} StrippedPiecesAvoid(pieces: seq<string>, c: char)
    requires forall p <- pieces :: c !in p
    ensures forall t <- StrippedPieces(pieces) :: c !in t
    decreases |pieces|
  {
    if pieces != [] {
      assert forall q <- pieces[1..] :: q in pieces;
      StrippedPiecesAvoid(pieces[1..], c);
    }
  }

  /** Each of `xs` with `w` in front of it. */
  function Prefixed(w: string, xs: seq<string>): seq<string> {
    seq(|xs|, i requires 0 <= i < |xs| => w + xs[i])
  }

  /** Stripping tokens that have white space in front of them gives the tokens. */
  lemma {:induction false} StrippedPiecesOfPrefixed(w: string, ts: seq<string>)
    requires forall c <- w :: IsSpace(c)
    requires forall t <- ts :: t != [] && Strip(t) == t
    ensures StrippedPieces(Prefixed(w, ts)) == ts
    decreases |ts|
  {
    if ts != [] {
      var t, rest := ts[0], ts[1..];
      assert t in ts && forall u <- rest :: u in ts;
      StrippedPiecesOfPrefixed(w, rest);
      PrefixedCons(w, ts);
      StripPadded(w, t, []);
      StrippedPiecesCons(w + t + [], t, Prefixed(w, rest));
    }
  }

  lemma PrefixedCons(w: string, ts: seq<string>)
    requires ts != []
    ensures Prefixed(w, ts) == [w + ts[0] + []] + Prefixed(w, ts[1..])
    ensures ts == [ts[0]] + ts[1..]
  {
    assert w + ts[0] + [] == w + ts[0];
  }

  /** A piece that strips to a non-empty token contributes exactly that token. */
  lemma StrippedPiecesCons(p: string, t: string, rest: seq<string>)
    requires Strip(p) == t && t != []
    ensures StrippedPieces([p] + rest) == [t] + StrippedPieces(rest)
  {
    assert ([p] + rest)[1..] == rest;
  }

  /** Moving padding from behind a separator to the front of the next piece
      does not change the joined text. */
  lemma JoinFrontPadding(w: string, y: string, zs: seq<string>, sep: string)
    ensures Join([w + y] + zs, sep) == w + Join([y] + zs, sep)
  {
    if zs != [] {
      assert ([w + y] + zs)[1..] == zs == ([y] + zs)[1..];
      assert (w + y) + sep + Join(zs, sep) == w + (y + sep + Join(zs, sep));
    }
  }

  /** Joining with a comma and padding is joining the padded pieces with a comma. */
  lemma {:induction false} JoinPrefixed(x: string, xs: seq<string>, w: string)
    ensures Join([x] + xs, "," + w) == Join([x] + Prefixed(w, xs), ",")
    decreases |xs|
  {
    if xs != [] {
      var sep := "," + w;
      assert ([x] + xs)[1..] == xs == [xs[0]] + xs[1..];
      JoinPrefixed(xs[0], xs[1..], w);
      var rest := Prefixed(w, xs[1..]);
      assert Prefixed(w, xs) == [w + xs[0]] + rest;
      assert ([x] + Prefixed(w, xs))[1..] == [w + xs[0]] + rest;
      JoinFrontPadding(w, xs[0], rest, ",");
      var tail := Join([xs[0]] + rest, ",");
      assert x + sep + tail == x + "," + (w + tail);
    } else {
      assert Prefixed(w, xs) == [];
    }
  }

  /** Stripped tokens written back with a comma and any white space between
      them come out unchanged. */
  lemma TokensOfJoin(ts: seq<string>, w: string)
    requires forall t <- ts :: t != [] && ',' !in t && Strip(t) == t
    requires forall c <- w :: IsSpace(c)
    ensures Tokens(Join(ts, "," + w)) == ts
  {
    var field := Join(ts, "," + w);
    if ts == [] {
      assert Split(field, ",") == [""];
    } else {
      var padded := [ts[0]] + Prefixed(w, ts[1..]);
      PaddedPieces(ts, w);
      SplitJoinChar(padded, ',');
      assert Split(field, ",") == padded;
      assert ts[0] in ts && forall u <- ts[1..] :: u in ts;
      StrippedPiecesOfPrefixed(w, ts[1..]);
      StrippedPiecesCons(ts[0], ts[0], Prefixed(w, ts[1..]));
      PrefixedCons(w, ts);
    }
    assert Tokens(field) == StrippedPieces(Split(field, ","));
  }

  /** The comma-joined padded pieces spell the same field, and none holds a comma. */
  lemma PaddedPieces(ts: seq<string>, w: string)
    requires ts != []
    requires forall t <- ts :: ',' !in t
    requires forall c <- w :: IsSpace(c)
    ensures Join(ts, "," + w) == Join([ts[0]] + Prefixed(w, ts[1..]), ",")
    ensures forall x <- [ts[0]] + Prefixed(w, ts[1..]) :: ',' !in x
  {
    PrefixedCons(w, ts);
    JoinPrefixed(ts[0], ts[1..], w);
    assert !IsSpace(',');
    var padded := [ts[0]] + Prefixed(w, ts[1..]);
    forall i | 0 <= i < |padded| ensures ',' !in padded[i] {
      if i > 0 {
        assert padded[i] == w + ts[i];
        assert ts[i] in ts;
      }
    }
  }

  /** The usual spelling of a CRAN dependency field, `"a, b"`, gives its tokens. */
  lemma TokensOfCranJoin(ts: seq<string>)
    requires forall t <- ts :: t != [] && ',' !in t && Strip(t) == t
    ensures Tokens(Join(ts, ", ")) == ts
  {
    assert forall c <- " " :: IsSpace(c);
    TokensOfJoin(ts, " ");
    assert "," + " " == ", ";
  }

  /** `set(chain(depends, imports, links))` */
  function TokenSet(depends: string, imports: string, linkingTo: string): (r: set<string>)
    ensures forall t :: t in r <==> t in Tokens(depends) || t in Tokens(imports) || t in Tokens(linkingTo)
  {
    var all := Tokens(depends) + Tokens(imports) + Tokens(linkingTo);
    set t | t in all
  }

  // ---------------------------------------------------------------------------
  // Constraints

  /** The entry a token contributes to the dependency map: its name and
      `'{relop}{version}'` (both empty when it has no constraint), or nothing
      when it does not match or lists architectures. */
  function Entry(t: string): Option<(string, string)> {
    match Match(t)
    case None => None
    case Some(d) =>
      if d.archs.Some? then None
      else Some((d.name, match d.constraint case None => "" case Some(c) => c.relop + c.version))
  }

  /** A token the converter can use. */
  predicate Accepted(t: string) {
    Entry(t).Some?
  }

  /** No two usable tokens give the same name different constraints. */
  ghost predicate ConsistentWith(entry: string -> Option<(string, string)>, tokens: set<string>) {
    forall t, u :: t in tokens && u in tokens && entry(t).Some? && entry(u).Some? && entry(t).value.0 == entry(u).value.0
                   ==> entry(t).value.1 == entry(u).value.1
  }

  /** What the loop knows once it has stored the entries of the tokens in
      `done`: each token was usable, the keys are their names, each value is
      the constraint of one of them, and the only one when the tokens are
      consistent. */
  ghost predicate CollectedWith(entry: string -> Option<(string, string)>, tokens: set<string>, done: set<string>,
                                deps: map<string, string>) {
    && done <= tokens
    && (forall u <- done :: entry(u).Some?)
    && (forall n :: n in deps <==> exists u <- done :: entry(u).Some? && entry(u).value.0 == n)
    && (forall n <- deps :: exists u <- done :: entry(u).Some? && entry(u).value.0 == n && entry(u).value.1 == deps[n])
    && (ConsistentWith(entry, tokens) ==>
          forall u <- done :: entry(u).Some? ==> entry(u).value.0 in deps && deps[entry(u).value.0] == entry(u).value.1)
  }

  /** Storing one more usable token's entry keeps the loop's knowledge. */
  lemma CollectStep(entry: string -> Option<(string, string)>, tokens: set<string>, done: set<string>,
                    deps: map<string, string>, t: string)
    requires CollectedWith(entry, tokens, done, deps) && t in tokens && entry(t).Some?
    ensures CollectedWith(entry, tokens, done + {t}, deps[entry(t).value.0 := entry(t).value.1])
  {
    var (name, constraint) := entry(t).value;
    var deps' := deps[name := constraint];
    var done' := done + {t};
    forall n ensures n in deps' <==> exists u <- done' :: entry(u).Some? && entry(u).value.0 == n {
      if n == name {
        assert t in done';
      } else if n in deps {
        var u :| u in done && entry(u).Some? && entry(u).value.0 == n;
        assert u in done';
      }
    }
    forall n | n in deps' ensures exists u <- done' :: entry(u).Some? && entry(u).value.0 == n && entry(u).value.1 == deps'[n] {
      if n != name {
        var u :| u in done && entry(u).Some? && entry(u).value.0 == n && entry(u).value.1 == deps[n];
        assert u in done';
      } else {
        assert t in done';
      }
    }
    if ConsistentWith(entry, tokens) {
      forall u <- done' | entry(u).Some? ensures entry(u).value.0 in deps' && deps'[entry(u).value.0] == entry(u).value.1 {
        if u != t {
          assert u in done;
        }
      }
    }
  }

  /** `CollectedWith` for the entries the recogniser gives. */
  ghost predicate Collected(tokens: set<string>, done: set<string>, deps: map<string, string>) {
    CollectedWith(Entry, tokens, done, deps)
  }

  /** The exit for token `t` of `package`: unparsable when the recogniser does
      not match it, unsupported when it lists architectures. */
  predicate Rejects(package: string, t: string, e: Error) {
    || (Match(t).None? && e == UnparsableDependency(package, t))
    || (Match(t).Some? && Match(t).value.archs.Some? && e == ArchsNotSupported(package, t))
  }

  /** The loop over the token set. The set's iteration order is not modelled:
      each token is picked by choice, so the error reported is that of some
      failing token, and a name with several constraints keeps one of them. */
  method CollectConstraints(package: string, tokens: set<string>) returns (r: Result<map<string, string>>)
    ensures r.Err? <==> exists t <- tokens :: !Accepted(t)
    ensures r.Err? ==> exists t <- tokens :: Rejects(package, t, r.error)
    ensures r.Ok? ==> Collected(tokens, tokens, r.value)
  {
    var remaining := tokens;
    var deps: map<string, string> := map[];
    while remaining != {}
      invariant remaining <= tokens
      invariant Collected(tokens, tokens - remaining, deps)
      decreases remaining
    {
      var t :| t in remaining;
      var m := Match(t);
      if m.None? {
        r := Err(UnparsableDependency(package, t));
        assert t in tokens && !Accepted(t) && Rejects(package, t, r.error);
        return;
      }
      if m.value.archs.Some? {
        r := Err(ArchsNotSupported(package, t));
        assert t in tokens && !Accepted(t) && Rejects(package, t, r.error);
        return;
      }
      var name := m.value.name;
      var constraint := match m.value.constraint case None => "" case Some(c) => c.relop + c.version;
      assert Entry(t) == Some((name, constraint));
      CollectStep(Entry, tokens, tokens - remaining, deps, t);
      assert tokens - remaining + {t} == tokens - (remaining - {t});
      deps := deps[name := constraint];
      remaining := remaining - {t};
    }
    assert tokens - remaining == tokens;
    r := Ok(deps);
  }

  // ---------------------------------------------------------------------------
  // The requirement lines

  /** The line for R itself. */
  function RLine(constraint: string): string {
    "    - r " + constraint
  }

  /** The conda package name of an R package. */
  function CondaName(name: string): string {
    "r-" + Lower(name)
  }

  function CondaLine(name: string, constraint: string): string {
    "    - " + CondaName(name) + " " + constraint
  }

  /** The lines after the loop has seen `names` in order: base packages are
      skipped, R is put in front, any other name is appended. */
  function DependsLines(deps: map<string, string>, names: seq<string>): seq<string>
    requires forall n <- names :: n in deps
    decreases |names|
  {
    if names == [] then []
    else
      var n := names[|names| - 1];
      var before := DependsLines(deps, names[..|names| - 1]);
      if n in BasePackageNames then before
      else if n == "R" then [RLine(deps[n])] + before
      else before + [CondaLine(n, deps[n])]
  }

  lemma DependsLinesExtend(deps: map<string, string>, names: seq<string>, i: nat)
    requires i < |names| && forall n <- names :: n in deps
    ensures forall n <- names[..i] :: n in deps
    ensures var n := names[i];
            var before := DependsLines(deps, names[..i]);
            DependsLines(deps, names[..i + 1])
            == if n in BasePackageNames then before
               else if n == "R" then [RLine(deps[n])] + before
               else before + [CondaLine(n, deps[n])]
  {
    assert names[..i + 1][..i] == names[..i];
    assert forall n <- names[..i] :: n in names;
  }

  /** The emission loop, over the names in sorted order. */
  method FormatDepends(deps: map<string, string>) returns (lines: seq<string>)
    ensures lines == DependsLines(deps, SortedListing(deps.Keys))
  {
    var names := SortNames(deps.Keys);
    lines := [];
    for i := 0 to |names|
      invariant forall n <- names :: n in deps
      invariant lines == DependsLines(deps, names[..i])
    {
      var n := names[i];
      DependsLinesExtend(deps, names, i);
      if n in BasePackageNames {
      } else if n == "R" {
        lines := [RLine(deps[n])] + lines;
      } else {
        lines := lines + [CondaLine(n, deps[n])];
      }
    }
    assert names[..|names|] == names;
  }

  /** The names that get a line of their own after R's: neither R nor a base package. */
  function Others(names: seq<string>): (r: seq<string>)
    ensures forall n <- r :: n in names
    decreases |names|
  {
    if names == [] then []
    else
      var n := names[|names| - 1];
      var front := names[..|names| - 1];
      assert forall x <- front :: x in names;
      Others(front) + (if n in BasePackageNames || n == "R" then [] else [n])
  }

  /** The names that get a line of their own are exactly those that are
      neither base packages nor R. */
  lemma {:induction false} OthersElements(names: seq<string>)
    ensures forall n :: n in Others(names) <==> n in names && n !in BasePackageNames && n != "R"
    decreases |names|
  {
    if names != [] {
      var n := names[|names| - 1];
      var front := names[..|names| - 1];
      OthersElements(front);
      assert names == front + [n];
    }
  }

  /** One conda line per name, in order. */
  function CondaLines(deps: map<string, string>, names: seq<string>): seq<string>
    requires forall n <- names :: n in deps
    decreases |names|
  {
    if names == [] then []
    else
      var front := names[..|names| - 1];
      assert forall x <- front :: x in names;
      CondaLines(deps, front) + [CondaLine(names[|names| - 1], deps[names[|names| - 1]])]
  }

  predicate Distinct(names: seq<string>) {
    forall i, j :: 0 <= i < j < |names| ==> names[i] != names[j]
  }

  lemma CondaLinesAppend(deps: map<string, string>, names: seq<string>, n: string)
    requires forall x <- names :: x in deps
    requires n in deps
    ensures CondaLines(deps, names + [n]) == CondaLines(deps, names) + [CondaLine(n, deps[n])]
  {
    assert (names + [n])[..|names|] == names;
  }

  lemma DependsLinesSnoc(deps: map<string, string>, front: seq<string>, n: string)
    requires forall x <- front :: x in deps
    requires n in deps
    ensures DependsLines(deps, front + [n])
            == if n in BasePackageNames then DependsLines(deps, front)
               else if n == "R" then [RLine(deps[n])] + DependsLines(deps, front)
               else DependsLines(deps, front) + [CondaLine(n, deps[n])]
  {
    assert (front + [n])[..|front|] == front;
  }

  /** The R line, when R is among `names`. */
  function RPart(deps: map<string, string>, names: seq<string>): seq<string>
    requires "R" in names ==> "R" in deps
  {
    if "R" in names then [RLine(deps["R"])] else []
  }

  /** The shape of the lines is kept by one more name. */
  lemma ShapeStep(deps: map<string, string>, front: seq<string>, n: string)
    requires forall x <- front :: x in deps
    requires n in deps && n !in front
    requires DependsLines(deps, front) == RPart(deps, front) + CondaLines(deps, Others(front))
    ensures DependsLines(deps, front + [n]) == RPart(deps, front + [n]) + CondaLines(deps, Others(front + [n]))
  {
    DependsLinesSnoc(deps, front, n);
    OthersSnoc(front, n);
    if n == "R" {
      ShapeStepR(deps, front);
    } else if n in BasePackageNames {
      RPartSkips(deps, front, n);
    } else {
      ShapeStepOther(deps, front, n);
    }
  }

  /** A name other than R does not change the R line. */
  lemma RPartSkips(deps: map<string, string>, front: seq<string>, n: string)
    requires n != "R" && ("R" in front ==> "R" in deps)
    ensures RPart(deps, front + [n]) == RPart(deps, front)
  {
    assert "R" in front + [n] <==> "R" in front;
  }

  /** R's line goes in front of the lines so far. */
  lemma ShapeStepR(deps: map<string, string>, front: seq<string>)
    requires forall x <- front :: x in deps
    requires "R" in deps && "R" !in front
    requires DependsLines(deps, front + ["R"]) == [RLine(deps["R"])] + DependsLines(deps, front)
    requires Others(front + ["R"]) == Others(front)
    requires DependsLines(deps, front) == RPart(deps, front) + CondaLines(deps, Others(front))
    ensures DependsLines(deps, front + ["R"]) == RPart(deps, front + ["R"]) + CondaLines(deps, Others(front + ["R"]))
  {
    var others := CondaLines(deps, Others(front));
    assert RPart(deps, front) == [];
    assert RPart(deps, front + ["R"]) == [RLine(deps["R"])] by {
      assert (front + ["R"])[|front|] == "R";
    }
    assert [] + others == others;
  }

  /** Any other name's line goes after the lines so far. */
  lemma ShapeStepOther(deps: map<string, string>, front: seq<string>, n: string)
    requires forall x <- front :: x in deps
    requires n in deps && n != "R" && n !in BasePackageNames
    requires DependsLines(deps, front + [n]) == DependsLines(deps, front) + [CondaLine(n, deps[n])]
    requires Others(front + [n]) == Others(front) + [n]
    requires DependsLines(deps, front) == RPart(deps, front) + CondaLines(deps, Others(front))
    ensures DependsLines(deps, front + [n]) == RPart(deps, front + [n]) + CondaLines(deps, Others(front + [n]))
  {
    var others := CondaLines(deps, Others(front));
    var line := CondaLine(n, deps[n]);
    RPartSkips(deps, front, n);
    calc {
      DependsLines(deps, front + [n]);
      (RPart(deps, front) + others) + [line];
      { AppendAssociates(RPart(deps, front), others, [line]); }
      RPart(deps, front) + (others + [line]);
      { CondaLinesAppend(deps, Others(front), n); }
      RPart(deps, front) + CondaLines(deps, Others(front) + [n]);
    }
  }

  lemma AppendAssociates<T>(a: seq<T>, b: seq<T>, c: seq<T>)
    ensures (a + b) + c == a + (b + c)
  {
  }

  lemma {:induction false} DependsLinesShape(deps: map<string, string>, names: seq<string>)
    requires forall n <- names :: n in deps
    requires Distinct(names)
    ensures DependsLines(deps, names) == RPart(deps, names) + CondaLines(deps, Others(names))
    decreases |names|
  {
    if names != [] {
      var k := |names| - 1;
      var front := names[..k];
      assert names == front + [names[k]];
      assert forall x <- front :: x in names;
      assert Distinct(front) by {
        forall i, j | 0 <= i < j < |front| ensures front[i] != front[j] {
          assert front[i] == names[i] && front[j] == names[j];
        }
      }
      assert names[k] !in front by {
        forall i | 0 <= i < |front| ensures front[i] != names[k] {
          assert front[i] == names[i];
        }
      }
      DependsLinesShape(deps, front);
      ShapeStep(deps, front, names[k]);
    }
  }

  /** The `depends` block for a constraint map: R's line first when R is
      listed, then one line per other name that is not a base package, in
      Python's sorted order of the original (not lower-cased) names. */
  lemma DependsLayout(deps: map<string, string>)
    ensures DependsLines(deps, SortedListing(deps.Keys))
            == (if "R" in deps then [RLine(deps["R"])] else []) + CondaLines(deps, Others(SortedListing(deps.Keys)))
    ensures StrictlySorted(Others(SortedListing(deps.Keys)))
    ensures forall n :: n in Others(SortedListing(deps.Keys)) <==> n in deps && n !in BasePackageNames && n != "R"
  {
    var names := SortedListing(deps.Keys);
    forall i, j | 0 <= i < j < |names| ensures names[i] != names[j] {
      BelowIrreflexive(names[i]);
    }
    DependsLinesShape(deps, names);
    OthersSorted(names);
    OthersElements(names);
  }

  lemma {:induction false} OthersSorted(names: seq<string>)
    requires StrictlySorted(names)
    ensures StrictlySorted(Others(names))
    decreases |names|
  {
    if names != [] {
      var front := names[..|names| - 1];
      OthersSorted(front);
      var n := names[|names| - 1];
      forall x <- Others(front) ensures Below(x, n) {
        var i :| 0 <= i < |front| && front[i] == x;
      }
    }
  }

  lemma OthersSnoc(front: seq<string>, n: string)
    ensures n in BasePackageNames || n == "R" ==> Others(front + [n]) == Others(front)
    ensures !(n in BasePackageNames || n == "R") ==> Others(front + [n]) == Others(front) + [n]
  {
    assert (front + [n])[..|front|] == front;
    assert Others(front) + [] == Others(front);
  }

  /** A record that depends on R, `xtable`, `MASS` and the base package
      `stats`: R comes first, `stats` is left out, `MASS` sorts before
      `xtable` because upper-case letters come first, and a name without a
      constraint keeps the space before its (empty) constraint. */
  lemma DependsExample()
    ensures var deps := map["R" := ">=2.15.0", "xtable" := "", "MASS" := "", "stats" := ""];
            DependsLines(deps, SortedListing(deps.Keys)) == ["    - r >=2.15.0", "    - r-mass ", "    - r-xtable "]
  {
    var deps := map["R" := ">=2.15.0", "xtable" := "", "MASS" := "", "stats" := ""];
    assert deps.Keys == {"R", "xtable", "MASS", "stats"};
    ExampleListing(deps.Keys);
    ExampleLines(deps);
  }

  // ---------------------------------------------------------------------------
  // Stepping stones of DependsExample. Each states one concrete fact about its
  // record; they model nothing on their own and exist so that every step stays
  // small for the verifier.

  lemma ExampleLines(deps: map<string, string>)
    requires deps == map["R" := ">=2.15.0", "xtable" := "", "MASS" := "", "stats" := ""]
    ensures DependsLines(deps, ["MASS", "R", "stats", "xtable"]) == ["    - r >=2.15.0", "    - r-mass ", "    - r-xtable "]
  {
    var sorted := ["MASS", "R", "stats", "xtable"];
    ExampleShape(deps, sorted);
    ExampleRPart(deps, sorted);
    ExampleOthers();
    ExampleCondaLines(deps);
  }

  lemma ExampleListing(keys: set<string>)
    requires keys == {"R", "xtable", "MASS", "stats"}
    ensures SortedListing(keys) == ["MASS", "R", "stats", "xtable"]
  {
    var sorted := ["MASS", "R", "stats", "xtable"];
    assert StrictlySorted(sorted) by {
      assert Below("MASS", "R") && Below("MASS", "stats") && Below("MASS", "xtable");
      assert Below("R", "stats") && Below("R", "xtable") && Below("stats", "xtable");
    }
    assert forall x :: x in sorted <==> x in keys;
    SortedUnique(sorted, SortedListing(keys));
  }

  lemma ExampleShape(deps: map<string, string>, sorted: seq<string>)
    requires deps == map["R" := ">=2.15.0", "xtable" := "", "MASS" := "", "stats" := ""]
    requires sorted == ["MASS", "R", "stats", "xtable"]
    ensures DependsLines(deps, sorted) == RPart(deps, sorted) + CondaLines(deps, Others(sorted))
  {
    assert Distinct(sorted);
    DependsLinesShape(deps, sorted);
  }

  lemma ExampleRPart(deps: map<string, string>, sorted: seq<string>)
    requires "R" in deps && deps["R"] == ">=2.15.0"
    requires sorted == ["MASS", "R", "stats", "xtable"]
    ensures RPart(deps, sorted) == ["    - r >=2.15.0"]
  {
    assert sorted[1] == "R";
    assert "R" in sorted;
    assert RLine(">=2.15.0") == "    - r " + ">=2.15.0" == "    - r >=2.15.0";
  }

  lemma ExampleOthers()
    ensures Others(["MASS", "R", "stats", "xtable"]) == ["MASS", "xtable"]
  {
    ExampleOthers3();
    assert "xtable" !in BasePackageNames;
    OthersSnoc(["MASS", "R", "stats"], "xtable");
    assert ["MASS", "R", "stats"] + ["xtable"] == ["MASS", "R", "stats", "xtable"];
  }

  lemma ExampleOthers3()
    ensures Others(["MASS", "R", "stats"]) == ["MASS"]
  {
    ExampleOthers2();
    assert "stats" in BasePackageNames;
    OthersSnoc(["MASS", "R"], "stats");
    assert ["MASS", "R"] + ["stats"] == ["MASS", "R", "stats"];
  }

  lemma ExampleOthers2()
    ensures Others(["MASS", "R"]) == ["MASS"]
  {
    ExampleOthers1();
    OthersSnoc(["MASS"], "R");
    assert ["MASS"] + ["R"] == ["MASS", "R"];
  }

  lemma ExampleOthers1()
    ensures Others(["MASS"]) == ["MASS"]
  {
    assert "MASS" !in BasePackageNames;
    OthersSnoc([], "MASS");
    assert [] + ["MASS"] == ["MASS"];
  }

  lemma ExampleCondaLines(deps: map<string, string>)
    requires "MASS" in deps && "xtable" in deps && deps["MASS"] == "" && deps["xtable"] == ""
    ensures CondaLines(deps, ["MASS", "xtable"]) == ["    - r-mass ", "    - r-xtable "]
  {
    var mass := Lower("MASS");
    assert mass[0] == 'm' && mass[1] == 'a' && mass[2] == 's' && mass[3] == 's';
    assert mass == "mass";
    ExampleCondaLine("MASS", "mass");
    assert CondaLine("MASS", "") == "    - r-mass ";
    var xtable := Lower("xtable");
    assert xtable[0] == 'x' && xtable[1] == 't' && xtable[2] == 'a' && xtable[3] == 'b' && xtable[4] == 'l' && xtable[5] == 'e';
    assert xtable == "xtable";
    ExampleCondaLine("xtable", "xtable");
    assert CondaLine("xtable", "") == "    - r-xtable ";
    var both := ["MASS", "xtable"];
    assert both[..1] == ["MASS"] && ["MASS"][..0] == [];
    assert CondaLines(deps, ["MASS"]) == CondaLines(deps, []) + [CondaLine("MASS", "")];
    assert CondaLines(deps, both) == CondaLines(deps, ["MASS"]) + [CondaLine("xtable", "")];
  }

  /** The line of an unconstrained name whose lower-case spelling is `lower`. */
  lemma ExampleCondaLine(name: string, lower: string)
    requires Lower(name) == lower
    ensures CondaLine(name, "") == "    - r-" + lower + " "
  {
    assert CondaLine(name, "") == "    - " + ("r-" + lower) + " " + "";
  }
}
