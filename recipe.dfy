/** The per-package part of `main` in conda_build/cran.py: the fields of a
    conda recipe computed from a package's index record, and the loop over the
    requested packages. Fetching the index, printing and writing the recipe
    files are not part of this model. */
module Recipe {
  import opened Text
  import opened Errors
  import opened Continuations
  import opened Records
  import opened Dependencies
  import opened Resolver

  /** The values the recipe templates are filled with. */
  datatype RecipeFields = RecipeFields(
    cranPackagename: string,
    packagename: string,
    depends: string,
    homeComment: string,
    homeurl: string,
    summaryComment: string,
    summary: string,
    cranVersion: string,
    condaVersion: string,
    filename: string,
    cranurl: string,
    cranMetadata: string,
    license: string,
    suggests: string)

  /** `record.get(key, default)` */
  function FieldOr(record: Record, key: string, default: string): string {
    if key in record.fields then record.fields[key] else default
  }

  // ---------------------------------------------------------------------------
  // Derived fields

  /** conda versions cannot contain "-"; conda reads "_" as a separator instead. */
  function CondaVersion(version: string): string {
    ReplaceChar(version, '-', '_')
  }

  /** The conda version has no "-" and differs from the CRAN version only where
      that has a "-", which becomes "_". */
  lemma CondaVersionShape(version: string)
    ensures var r := CondaVersion(version);
            && |r| == |version| && '-' !in r
            && forall i :: 0 <= i < |version| ==> r[i] == (if version[i] == '-' then '_' else version[i])
  {
  }

  /** A version without "_" is recovered from its conda version. */
  lemma CondaVersionReversible(version: string)
    requires '_' !in version
    ensures ReplaceChar(CondaVersion(version), '_', '-') == version
  {
    var back := ReplaceChar(CondaVersion(version), '_', '-');
    CondaVersionShape(version);
    forall i | 0 <= i < |version| ensures back[i] == version[i] {
      assert version[i] != '_';
    }
  }

  /** The source tarball's name: `{cran_packagename}_{cran_version}.tar.bz2`. */
  function Filename(package: string, version: string): string {
    package + "_" + version + ".tar.bz2"
  }

  /** The first "_" of the file name ends the package name, when the package
      name has none of its own. */
  lemma FilenameNamesPackage(package: string, version: string)
    requires '_' !in package
    ensures FindFrom(Filename(package, version), "_", 0) == Some(|package|)
  {
    assert Filename(package, version) == package + ("_" + version + ".tar.bz2");
    FindFromPrefix(package, "_" + version + ".tar.bz2", '_');
  }

  /** The declared license (or "None"), marked " (FOSS)" when the record has a
      `License_is_FOSS` field at all, and " (Restricts use)" when
      `License_restricts_use` is exactly "yes". */
  function License(record: Record): string {
    var base := FieldOr(record, "License", "None");
    var foss := if "License_is_FOSS" in record.fields then base + " (FOSS)" else base;
    if "License_restricts_use" in record.fields && record.fields["License_restricts_use"] == "yes"
    then foss + " (Restricts use)" else foss
  }

  /** The license starts with the declared one; " (FOSS)" follows it when the
      record has `License_is_FOSS`; it ends with " (Restricts use)" when
      `License_restricts_use` is "yes"; and nothing else is added. */
  lemma LicenseMarks(record: Record)
    ensures var r := License(record);
            var n := |FieldOr(record, "License", "None")|;
            var foss := "License_is_FOSS" in record.fields;
            var restricts := "License_restricts_use" in record.fields && record.fields["License_restricts_use"] == "yes";
            && StartsWith(r, FieldOr(record, "License", "None"))
            && (foss ==> |r| >= n + 7 && r[n..n + 7] == " (FOSS)")
            && (restricts ==> |r| >= 16 && r[|r| - 16..] == " (Restricts use)")
            && |r| == n + (if foss then 7 else 0) + (if restricts then 16 else 0)
  {
  }

  /** The `Suggests` field as a comment, or nothing. */
  function Suggests(record: Record): string {
    if "Suggests" in record.fields then "# Suggests: " + record.fields["Suggests"] else ""
  }

  /** The comment carries the value of the last line that sets `Suggests`. */
  lemma SuggestsFromLines(lines: seq<string>, j: nat, v: string)
    requires RecordOf(lines).Ok? && j < |lines| && HasKey(lines[j], "Suggests") && FieldStep(lines[j]).value == v
    requires forall i :: j < i < |lines| ==> !HasKey(lines[i], "Suggests")
    ensures Suggests(RecordOf(lines).value) == "# Suggests: " + v
  {
    RecordLastLineWins(lines, j, "Suggests", v);
  }

  /** Without a line that sets `Suggests` there is no comment. */
  lemma SuggestsAbsent(lines: seq<string>)
    requires RecordOf(lines).Ok? && forall j :: 0 <= j < |lines| ==> !HasKey(lines[j], "Suggests")
    ensures Suggests(RecordOf(lines).value) == ""
  {
    RecordKeys(lines);
  }

  /** Each line as a YAML comment. */
  function Commented(lines: seq<string>): seq<string> {
    seq(|lines|, i requires 0 <= i < |lines| => "# " + lines[i])
  }

  /** `'\n'.join(['# %s' % l for l in orig_lines if l])` */
  function CranMetadata(origLines: seq<string>): string {
    Join(Commented(NonEmpty(origLines)), "\n")
  }

  lemma {:induction false} NonEmptyKeepsElements(xs: seq<string>)
    ensures forall x <- NonEmpty(xs) :: x in xs && x != ""
    ensures (exists x <- xs :: x != "") ==> NonEmpty(xs) != []
    decreases |xs|
  {
    if xs != [] {
      NonEmptyKeepsElements(xs[1..]);
      assert forall x <- xs[1..] :: x in xs;
      assert forall x <- xs :: x == xs[0] || x in xs[1..];
    }
  }

  /** The metadata comment gives back, line by line, the non-empty lines of the
      record, when none of them holds a line feed. */
  lemma CranMetadataLines(origLines: seq<string>)
    requires forall l <- origLines :: '\n' !in l
    requires exists l <- origLines :: l != ""
    ensures Split(CranMetadata(origLines), "\n") == Commented(NonEmpty(origLines))
  {
    NonEmptyKeepsElements(origLines);
    var commented := Commented(NonEmpty(origLines));
    forall c <- commented ensures '\n' !in c {
      var i :| 0 <= i < |commented| && commented[i] == c;
      assert c == "# " + NonEmpty(origLines)[i];
      assert NonEmpty(origLines)[i] in NonEmpty(origLines);
    }
    SplitJoinChar(commented, '\n');
  }

  // ---------------------------------------------------------------------------
  // One package

  /** The tokens of a record's `Depends`, `Imports` and `LinkingTo` fields. */
  function RecordTokens(record: Record): set<string> {
    TokenSet(FieldOr(record, "Depends", ""), FieldOr(record, "Imports", ""), FieldOr(record, "LinkingTo", ""))
  }

  /** The conversion of `package` fails: it is not in the index, a version was
      requested, its record has no version, or one of its dependency tokens
      cannot be used. */
  ghost predicate Fails(index: map<string, Record>, package: string, versionRequested: bool) {
    match Lookup(index, package)
    case Err(_) => true
    case Ok(record) =>
      versionRequested || "Version" !in record.fields || exists t <- RecordTokens(record) :: !Accepted(t)
  }

  /** `error` is the error the conversion of `package` stops with. */
  ghost predicate Explains(index: map<string, Record>, package: string, versionRequested: bool, error: Error) {
    match Lookup(index, package)
    case Err(e) => error == e
    case Ok(record) =>
      if versionRequested then error == VersionsNotImplemented
      else if "Version" !in record.fields then error == MissingVersionField(package)
      else exists t <- RecordTokens(record) :: Rejects(package, t, error)
  }

  /** `fields` are the recipe fields of `package`, whose record is `record`,
      for the dependency constraints of one pass over its tokens. */
  ghost predicate Converted(record: Record, package: string, cranUrl: string, fields: RecipeFields) {
    && "Version" in record.fields
    && var version := record.fields["Version"];
    && fields == RecipeFields(
         package, CondaName(package), fields.depends, "#", "", "#", "",
         version, CondaVersion(version), Filename(package, version), cranUrl + Filename(package, version),
         CranMetadata(record.origLines), License(record), Suggests(record))
    && exists deps :: Collected(RecordTokens(record), RecordTokens(record), deps)
                      && fields.depends == Join(DependsLines(deps, SortedListing(deps.Keys)), "\n")
  }

  /** The body of `main`'s loop for one requested package. */
  method ConvertPackage(index: map<string, Record>, package: string, cranUrl: string, versionRequested: bool)
    returns (r: Result<RecipeFields>)
    ensures r.Err? <==> Fails(index, package, versionRequested)
    ensures r.Err? ==> Explains(index, package, versionRequested, r.error)
    ensures r.Ok? ==> Lookup(index, package).Ok? && Converted(Lookup(index, package).value, package, cranUrl, r.value)
  {
    var found := Lookup(index, package);
    if found.Err? {
      return Err(found.error);
    }
    var record := found.value;
    if versionRequested {
      return Err(VersionsNotImplemented);
    }
    if "Version" !in record.fields {
      return Err(MissingVersionField(package));
    }
    var version := record.fields["Version"];
    var filename := Filename(package, version);
    var tokens := RecordTokens(record);
    var collected := CollectConstraints(package, tokens);
    if collected.Err? {
      return Err(collected.error);
    }
    var deps := collected.value;
    var lines := FormatDepends(deps);
    r := Ok(RecipeFields(
      package, CondaName(package), Join(lines, "\n"), "#", "", "#", "",
      version, CondaVersion(version), filename, cranUrl + filename,
      CranMetadata(record.origLines), License(record), Suggests(record)));
  }

  // ---------------------------------------------------------------------------
  // All requested packages

  /** Each package in `dicts` holds the recipe fields of its record. */
  ghost predicate AllConverted(index: map<string, Record>, cranUrl: string, dicts: map<string, RecipeFields>) {
    forall p <- dicts :: Lookup(index, p).Ok? && Converted(Lookup(index, p).value, p, cranUrl, dicts[p])
  }

  /** The packages requested at positions `from` and beyond. */
  function RequestedFrom(packages: seq<string>, from: nat): set<string>
    requires from <= |packages|
  {
    set j | from <= j < |packages| :: packages[j]
  }

  lemma RequestedFromStep(packages: seq<string>, from: nat)
    requires 0 < from <= |packages|
    ensures RequestedFrom(packages, from - 1) == RequestedFrom(packages, from) + {packages[from - 1]}
  {
  }

  lemma RequestedFromStart(packages: seq<string>)
    ensures RequestedFrom(packages, 0) == set p | p in packages
  {
    forall p <- packages ensures p in RequestedFrom(packages, 0) {
      var j :| 0 <= j < |packages| && packages[j] == p;
    }
  }

  /** The state of `main`'s loop once the packages from position `pending`
      on have been converted into `dicts`. */
  ghost predicate Progress(index: map<string, Record>, packages: seq<string>, cranUrl: string, versionRequested: bool,
                           pending: nat, dicts: map<string, RecipeFields>) {
    && pending <= |packages|
    && dicts.Keys == RequestedFrom(packages, pending)
    && AllConverted(index, cranUrl, dicts)
    && forall j :: pending <= j < |packages| ==> !Fails(index, packages[j], versionRequested)
  }

  lemma ProgressStep(index: map<string, Record>, packages: seq<string>, cranUrl: string, versionRequested: bool,
                     pending: nat, dicts: map<string, RecipeFields>, fields: RecipeFields)
    requires Progress(index, packages, cranUrl, versionRequested, pending, dicts) && 0 < pending
    requires !Fails(index, packages[pending - 1], versionRequested)
    requires Lookup(index, packages[pending - 1]).Ok?
    requires Converted(Lookup(index, packages[pending - 1]).value, packages[pending - 1], cranUrl, fields)
    ensures Progress(index, packages, cranUrl, versionRequested, pending - 1, dicts[packages[pending - 1] := fields])
  {
    var good := (p, f) => Lookup(index, p).Ok? && Converted(Lookup(index, p).value, p, cranUrl, f);
    var fails := p => Fails(index, p, versionRequested);
    ProgressWithStep(good, fails, packages, pending, dicts, fields);
  }

  /** `Progress` with the converted entries and the failing packages given as
      predicates, so that the step below does not depend on what they are. */
  ghost predicate ProgressWith(good: (string, RecipeFields) -> bool, fails: string -> bool,
                               packages: seq<string>, pending: nat, dicts: map<string, RecipeFields>) {
    && pending <= |packages|
    && dicts.Keys == RequestedFrom(packages, pending)
    && (forall p <- dicts :: good(p, dicts[p]))
    && forall j :: pending <= j < |packages| ==> !fails(packages[j])
  }

  lemma ProgressWithStep(good: (string, RecipeFields) -> bool, fails: string -> bool,
                         packages: seq<string>, pending: nat, dicts: map<string, RecipeFields>, fields: RecipeFields)
    requires ProgressWith(good, fails, packages, pending, dicts) && 0 < pending
    requires !fails(packages[pending - 1]) && good(packages[pending - 1], fields)
    ensures ProgressWith(good, fails, packages, pending - 1, dicts[packages[pending - 1] := fields])
  {
    RequestedFromStep(packages, pending);
    assert forall j :: pending - 1 <= j < |packages| ==> !fails(packages[j]) by {
      forall j | pending - 1 <= j < |packages| ensures !fails(packages[j]) {
        if j >= pending {
          assert !fails(packages[j]);
        }
      }
    }
  }

  /** What `main`'s loop promises: it succeeds if and only if no requested
      package fails, and then holds one converted entry per requested name;
      otherwise it reports the error of the last-listed failing package,
      which is the first one popped. */
  ghost predicate Outcome(index: map<string, Record>, packages: seq<string>, cranUrl: string, versionRequested: bool,
                          r: Result<map<string, RecipeFields>>) {
    && (r.Ok? <==> forall p <- packages :: !Fails(index, p, versionRequested))
    && (r.Ok? ==> r.value.Keys == set p | p in packages)
    && (r.Ok? ==> forall p <- r.value :: Lookup(index, p).Ok? && Converted(Lookup(index, p).value, p, cranUrl, r.value[p]))
    && (r.Err? ==> exists i :: 0 <= i < |packages| && Explains(index, packages[i], versionRequested, r.error)
                               && forall j :: i < j < |packages| ==> !Fails(index, packages[j], versionRequested))
  }

  /** A run that gets through every package has converted each of them. */
  lemma ProgressDone(index: map<string, Record>, packages: seq<string>, cranUrl: string, versionRequested: bool,
                     dicts: map<string, RecipeFields>)
    requires Progress(index, packages, cranUrl, versionRequested, 0, dicts)
    ensures Outcome(index, packages, cranUrl, versionRequested, Ok(dicts))
  {
    RequestedFromStart(packages);
    forall p <- packages ensures !Fails(index, p, versionRequested) {
      var j :| 0 <= j < |packages| && packages[j] == p;
    }
  }

  /** A run that stops at position `pending - 1` with `error` has the outcome
      `main` promises: some package fails, and `error` is the error of the
      last-listed failing one. */
  lemma StopsAt(index: map<string, Record>, packages: seq<string>, cranUrl: string, versionRequested: bool,
                pending: nat, dicts: map<string, RecipeFields>, error: Error)
    requires 0 < pending && Progress(index, packages, cranUrl, versionRequested, pending, dicts)
    requires Fails(index, packages[pending - 1], versionRequested)
    requires Explains(index, packages[pending - 1], versionRequested, error)
    ensures Outcome(index, packages, cranUrl, versionRequested, Err(error))
  {
    assert packages[pending - 1] in packages;
  }

  /** One turn of `main`'s loop: the last pending package is popped and
      converted, and its fields are stored under its requested name. */
  method ConvertNext(index: map<string, Record>, packages: seq<string>, cranUrl: string, versionRequested: bool,
                     pending: nat, dicts: map<string, RecipeFields>)
    returns (r: Result<map<string, RecipeFields>>)
    requires 0 < pending && Progress(index, packages, cranUrl, versionRequested, pending, dicts)
    ensures r.Ok? ==> Progress(index, packages, cranUrl, versionRequested, pending - 1, r.value)
    ensures r.Err? ==> Outcome(index, packages, cranUrl, versionRequested, r)
  {
    var package := packages[pending - 1];
    var converted := ConvertPackage(index, package, cranUrl, versionRequested);
    if converted.Err? {
      StopsAt(index, packages, cranUrl, versionRequested, pending, dicts, converted.error);
      return Err(converted.error);
    }
    ProgressStep(index, packages, cranUrl, versionRequested, pending, dicts, converted.value);
    r := Ok(dicts[package := converted.value]);
  }

  /** `main`'s loop: the requested packages are popped from the end of the
      list, so they are converted last first; the first failure stops the run,
      and a package requested twice keeps its last conversion. */
  method ConvertAll(index: map<string, Record>, packages: seq<string>, cranUrl: string, versionRequested: bool)
    returns (r: Result<map<string, RecipeFields>>)
    ensures Outcome(index, packages, cranUrl, versionRequested, r)
  {
    var pending: nat := |packages|;
    var dicts: map<string, RecipeFields> := map[];
    while pending > 0
      invariant Progress(index, packages, cranUrl, versionRequested, pending, dicts)
    {
      var next := ConvertNext(index, packages, cranUrl, versionRequested, pending, dicts);
      if next.Err? {
        return next;
      }
      dicts := next.value;
      pending := pending - 1;
    }
    ProgressDone(index, packages, cranUrl, versionRequested, dicts);
    r := Ok(dicts);
  }

  /** `main` without its I/O: `text` is the index file fetched from the
      repository at `cranUrl`, `packages` the requested package names. The
      whole index is read before the first package is converted. */
  method Run(text: string, packages: seq<string>, cranUrl: string, versionRequested: bool)
    returns (r: Result<map<string, RecipeFields>>)
    requires Foldable(text)
    ensures IndexOf(text).Err? ==> r == Err(IndexOf(text).error)
    ensures IndexOf(text).Ok? ==> Outcome(IndexOf(text).value, packages, cranUrl, versionRequested, r)
  {
    var index := BuildIndex(text);
    if index.Err? {
      return Err(index.error);
    }
    r := ConvertAll(index.value, packages, cranUrl, versionRequested);
  }
}
