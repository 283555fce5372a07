/** The records of a CRAN `PACKAGES` index and the index built from them
    (`dict_from_cran_lines` and the first lines of `main` in conda_build/cran.py).

    The index text is cut into blocks at every blank line ("\n\n"), each block
    into lines, the continuation lines of each block are folded, and each block
    becomes a dictionary of `Key: value` fields. The index maps the lower-cased
    `Package` field of each record to the record. */
module Records {
  import opened Text
  import opened Errors
  import opened Continuations
  import opened Tables

  /** The field names the converter knows; any other key draws a warning. */
  const CranKeys: seq<string> := [
    "Site", "Archs", "Depends", "Enhances", "Imports", "License", "License_is_FOSS",
    "License_restricts_use", "LinkingTo", "MD5sum", "NeedsCompilation", "OS_type",
    "Package", "Path", "Priority", "Suggests", "Version", "Title", "Author", "Maintainer"
  ]

  /** What separates a field's key from its value. */
  const FieldSeparator: string := ": "

  /** The key under which the record keeps its own (folded) lines. */
  const OrigLinesKey: string := "orig_lines"

  // ---------------------------------------------------------------------------
  // One line

  /** `(k, v) = line.split(': ')`: the line must split into exactly two parts. */
  function SplitField(line: string): (r: Option<(string, string)>)
    ensures r.Some? ==> r.value.0 + FieldSeparator + r.value.1 == line
    ensures r.Some? ==> !Contains(r.value.0, FieldSeparator) && !Contains(r.value.1, FieldSeparator)
  {
    var parts := Split(line, FieldSeparator);
    JoinSplit(line, FieldSeparator);
    SplitPiecesAreFree(line, FieldSeparator);
    if |parts| == 2 then
      assert parts[0] in parts && parts[1] in parts;
      Some((parts[0], parts[1]))
    else None
  }

  /** Any key and value free of the separator come back out of their line: with
      the contract of `SplitField` this says a line splits exactly when it is
      one such key, the separator and one such value. */
  lemma FieldRoundTrip(k: string, v: string)
    requires !Contains(k, FieldSeparator) && !Contains(v, FieldSeparator)
    ensures SplitField(k + FieldSeparator + v) == Some((k, v))
  {
    var s := k + FieldSeparator + v;
    forall j: nat | j < |k| ensures !OccursAt(s, FieldSeparator, j) {
      if j + 2 <= |k| {
        assert s[j..j + 2] == k[j..j + 2];
        assert !OccursAt(k, FieldSeparator, j);
      } else {
        assert s[j + 1] == ':';
      }
    }
    assert OccursAt(s, FieldSeparator, |k|);
    assert FindFrom(s, FieldSeparator, 0) == Some(|k|);
    assert s[|k| + 2..] == v;
    assert s[..|k|] == k;
    assert FindFrom(v, FieldSeparator, 0) == None;
    assert Split(v, FieldSeparator) == [v];
    assert Split(s, FieldSeparator) == [k] + Split(v, FieldSeparator);
  }

  /** What one line of a record does to the dictionary: an empty line is
      skipped, a line that does not split raises `ValueError`. */
  function FieldStep(line: string): Step<string> {
    if line == "" then Skip
    else
      match SplitField(line)
      case None => Fail(MalformedLine(line))
      case Some((k, v)) => Put(k, v)
  }

  function FieldSteps(lines: seq<string>): seq<Step<string>> {
    seq(|lines|, j requires 0 <= j < |lines| => FieldStep(lines[j]))
  }

  predicate Malformed(line: string) {
    FieldStep(line).Fail?
  }

  predicate HasKey(line: string, k: string) {
    FieldStep(line).Put? && FieldStep(line).key == k
  }

  /** The step sets a key that is not one of `CRAN_KEYS`. */
  predicate SetsUnknownKey(step: Step<string>) {
    step.Put? && step.key !in CranKeys
  }

  /** The keys, in order, that the steps of a record's lines draw an "Unknown
      key" warning for. */
  function UnknownKeys(steps: seq<Step<string>>): seq<string>
    decreases |steps|
  {
    if steps == [] then []
    else
      var last := steps[|steps| - 1];
      UnknownKeys(steps[..|steps| - 1]) + if SetsUnknownKey(last) then [last.key] else []
  }

  // ---------------------------------------------------------------------------
  // One record

  /** A parsed record: its fields, the lines it was read from (the original's
      `orig_lines` entry) and the unknown keys it warned about. */
  datatype Record = Record(fields: map<string, string>, origLines: seq<string>, unknownKeys: seq<string>)

  /** The record `dict_from_cran_lines` returns for the lines of one block. The
      `orig_lines` entry overwrites any field of that name. */
  function RecordOf(lines: seq<string>): Result<Record> {
    match Fill(FieldSteps(lines))
    case Err(e) => Err(e)
    case Ok(m) => Ok(Record(m - {OrigLinesKey}, lines, UnknownKeys(FieldSteps(lines))))
  }

  /** A record fails exactly when one of its lines does not split, and with the
      first such line. */
  lemma RecordFails(lines: seq<string>)
    ensures RecordOf(lines).Err? <==> exists j :: 0 <= j < |lines| && Malformed(lines[j])
    ensures RecordOf(lines).Err? ==>
              exists j :: 0 <= j < |lines| && Malformed(lines[j]) && RecordOf(lines).error == MalformedLine(lines[j])
                          && forall i :: 0 <= i < j ==> !Malformed(lines[i])
  {
    var steps := FieldSteps(lines);
    assert forall j :: 0 <= j < |lines| ==> steps[j] == FieldStep(lines[j]);
    FillFails(steps);
  }

  /** A parsed record keeps its lines, and its fields are exactly the keys its
      lines set, but for the `orig_lines` entry. */
  lemma RecordKeys(lines: seq<string>)
    requires RecordOf(lines).Ok?
    ensures RecordOf(lines).value.origLines == lines
    ensures forall k :: k in RecordOf(lines).value.fields <==> k != OrigLinesKey && exists j :: 0 <= j < |lines| && HasKey(lines[j], k)
  {
    var steps := FieldSteps(lines);
    assert forall j :: 0 <= j < |lines| ==> steps[j] == FieldStep(lines[j]);
    FillKeys(steps);
  }

  /** A field holds the value of the last line that sets it. */
  lemma RecordLastLineWins(lines: seq<string>, j: nat, k: string, v: string)
    requires RecordOf(lines).Ok? && j < |lines| && FieldStep(lines[j]) == Put(k, v) && k != OrigLinesKey
    requires forall i :: j < i < |lines| ==> !HasKey(lines[i], k)
    ensures k in RecordOf(lines).value.fields && RecordOf(lines).value.fields[k] == v
  {
    FillLastWins(FieldSteps(lines), j);
  }

  lemma UnknownKeysExtend(steps: seq<Step<string>>, i: nat)
    requires i < |steps|
    ensures UnknownKeys(steps[..i + 1])
            == UnknownKeys(steps[..i]) + if SetsUnknownKey(steps[i]) then [steps[i].key] else []
  {
    assert steps[..i + 1][..i] == steps[..i];
  }

  /** `keys` holds, at strictly increasing positions `at`, the key of every
      step that sets an unknown key, once per step and in order. */
  ghost predicate WarnedInOrder(steps: seq<Step<string>>, keys: seq<string>, at: seq<int>) {
    && |at| == |keys|
    && (forall t :: 0 <= t < |at| ==> 0 <= at[t] < |steps| && SetsUnknownKey(steps[at[t]]) && steps[at[t]].key == keys[t])
    && (forall t, u :: 0 <= t < u < |at| ==> at[t] < at[u])
    && (forall j :: 0 <= j < |steps| && SetsUnknownKey(steps[j]) ==> j in at)
  }

  /** The warnings are the unknown keys the steps set, one per step that sets
      one, in the order of the steps. */
  lemma {:induction false} UnknownKeysInOrder(steps: seq<Step<string>>)
    ensures exists at :: WarnedInOrder(steps, UnknownKeys(steps), at)
    decreases |steps|
  {
    if steps == [] {
      assert UnknownKeys(steps) == [];
      assert WarnedInOrder(steps, UnknownKeys(steps), []);
    } else {
      var n := |steps| - 1;
      UnknownKeysInOrder(steps[..n]);
      var at :| WarnedInOrder(steps[..n], UnknownKeys(steps[..n]), at);
      UnknownKeysExtend(steps, n);
      assert steps[..n + 1] == steps;
      if SetsUnknownKey(steps[n]) {
        WarnedPut(steps, UnknownKeys(steps[..n]), at);
        assert UnknownKeys(steps) == UnknownKeys(steps[..n]) + [steps[n].key];
        assert WarnedInOrder(steps, UnknownKeys(steps), at + [n]);
      } else {
        WarnedSkip(steps, UnknownKeys(steps[..n]), at);
        assert WarnedInOrder(steps, UnknownKeys(steps), at);
      }
    }
  }

  lemma WarnedPut(steps: seq<Step<string>>, keys: seq<string>, at: seq<int>)
    requires steps != [] && SetsUnknownKey(steps[|steps| - 1])
    requires WarnedInOrder(steps[..|steps| - 1], keys, at)
    ensures WarnedInOrder(steps, keys + [steps[|steps| - 1].key], at + [|steps| - 1])
  {
    var n := |steps| - 1;
    var keys', at' := keys + [steps[n].key], at + [n];
    forall t | 0 <= t < |at'|
      ensures 0 <= at'[t] < |steps| && SetsUnknownKey(steps[at'[t]]) && steps[at'[t]].key == keys'[t]
    {
      if t < |at| {
        assert steps[..n][at[t]] == steps[at[t]];
      }
    }
    forall t, u | 0 <= t < u < |at'|
      ensures at'[t] < at'[u]
    {
      if u < |at| {
      } else {
        assert at[t] < n;
      }
    }
    forall j | 0 <= j < |steps| && SetsUnknownKey(steps[j])
      ensures j in at'
    {
      if j < n {
        assert steps[..n][j] == steps[j];
        assert j in at;
      } else {
        assert at'[|at|] == j;
      }
    }
  }

  lemma WarnedSkip(steps: seq<Step<string>>, keys: seq<string>, at: seq<int>)
    requires steps != [] && !SetsUnknownKey(steps[|steps| - 1])
    requires WarnedInOrder(steps[..|steps| - 1], keys, at)
    ensures WarnedInOrder(steps, keys, at)
  {
    var n := |steps| - 1;
    forall t | 0 <= t < |at|
      ensures 0 <= at[t] < |steps| && SetsUnknownKey(steps[at[t]]) && steps[at[t]].key == keys[t]
    {
      assert steps[..n][at[t]] == steps[at[t]];
    }
    forall j | 0 <= j < |steps| && SetsUnknownKey(steps[j])
      ensures j in at
    {
      assert steps[..n][j] == steps[j];
    }
  }

  /** A key is warned about exactly when it is not one of `CRAN_KEYS` and some
      step sets it. */
  lemma UnknownKeysOfSteps(steps: seq<Step<string>>, k: string)
    ensures k in UnknownKeys(steps) <==> k !in CranKeys && exists j :: 0 <= j < |steps| && steps[j].Put? && steps[j].key == k
  {
    UnknownKeysInOrder(steps);
    var at :| WarnedInOrder(steps, UnknownKeys(steps), at);
    if k in UnknownKeys(steps) {
      var t :| 0 <= t < |at| && UnknownKeys(steps)[t] == k;
      assert steps[at[t]].key == k;
    }
    if k !in CranKeys && exists j :: 0 <= j < |steps| && steps[j].Put? && steps[j].key == k {
      var j :| 0 <= j < |steps| && steps[j].Put? && steps[j].key == k;
      assert SetsUnknownKey(steps[j]);
      var t :| 0 <= t < |at| && at[t] == j;
      assert UnknownKeys(steps)[t] == k;
    }
  }

  /** A key draws a warning exactly when it is not one of `CRAN_KEYS` and some
      line of the record sets it. */
  lemma UnknownKeysElements(lines: seq<string>, k: string)
    ensures k in UnknownKeys(FieldSteps(lines)) <==> k !in CranKeys && exists j :: 0 <= j < |lines| && HasKey(lines[j], k)
  {
    var steps := FieldSteps(lines);
    UnknownKeysOfSteps(steps, k);
    assert forall j :: 0 <= j < |lines| ==> (HasKey(lines[j], k) <==> steps[j].Put? && steps[j].key == k);
  }

  /** `dict_from_cran_lines`. */
  method RecordFromLines(lines: seq<string>) returns (r: Result<Record>)
    ensures r == RecordOf(lines)
  {
    var steps := FieldSteps(lines);
    var d: map<string, string> := map[];
    var unknown: seq<string> := [];
    for i := 0 to |lines|
      invariant Fill(steps[..i]) == Ok(d)
      invariant unknown == UnknownKeys(steps[..i])
    {
      var line := lines[i];
      assert steps[i] == FieldStep(line);
      FillExtend(steps, i, d);
      UnknownKeysExtend(steps, i);
      if line != "" {
        var parts := Split(line, FieldSeparator);
        if |parts| != 2 {
          return Err(MalformedLine(line));
        }
        var k, v := parts[0], parts[1];
        d := d[k := v];
        if k !in CranKeys {
          unknown := unknown + [k];
        }
      }
    }
    assert steps[..|lines|] == steps;
    assert lines[..|lines|] == lines;
    r := Ok(Record(d - {OrigLinesKey}, lines, unknown));
  }

  // ---------------------------------------------------------------------------
  // The index

  /** What separates the records of the index text. */
  const BlockSeparator: string := "\n\n"

  function Blocks(text: string): seq<string> {
    Split(text, BlockSeparator)
  }

  /** Continuation folding is modelled for blocks whose first line is an ordinary line. */
  predicate Foldable(text: string) {
    forall j :: 0 <= j < |Blocks(text)| ==> StartsWithOrdinaryLine(SplitLines(Blocks(text)[j]))
  }

  /** `package_list`: the folded lines of every block. */
  function PackageList(text: string): seq<seq<string>>
    requires Foldable(text)
  {
    var blocks := Blocks(text);
    seq(|blocks|, j requires 0 <= j < |blocks| => Normalized(SplitLines(blocks[j])))
  }

  /** What one block does to the index: its record under its lower-cased
      `Package` field, or the `ValueError` or `KeyError` that stops the run. */
  function IndexStep(lines: seq<string>): Step<Record> {
    match RecordOf(lines)
    case Err(e) => Fail(e)
    case Ok(r) =>
      if "Package" in r.fields then Put(Lower(r.fields["Package"]), r)
      else Fail(MissingPackageField(lines))
  }

  function IndexSteps(list: seq<seq<string>>): seq<Step<Record>> {
    seq(|list|, j requires 0 <= j < |list| => IndexStep(list[j]))
  }

  /** `cran_metadata`, built from the text of the `PACKAGES` file. */
  function IndexOf(text: string): Result<map<string, Record>>
    requires Foldable(text)
  {
    Fill(IndexSteps(PackageList(text)))
  }

  /** `package_list`: fold the continuation lines of every block. */
  method FoldBlocks(text: string) returns (packageList: seq<seq<string>>)
    requires Foldable(text)
    ensures packageList == PackageList(text)
  {
    var blocks := Split(text, BlockSeparator);
    packageList := [];
    for i := 0 to |blocks|
      invariant packageList == PackageList(text)[..i]
    {
      var lines := RemoveContinuations(SplitLines(blocks[i]));
      packageList := packageList + [lines];
    }
  }

  /** The dictionary comprehension of `main`: key every record by its
      lower-cased package name. */
  method KeyRecords(packageList: seq<seq<string>>) returns (r: Result<map<string, Record>>)
    ensures r == Fill(IndexSteps(packageList))
  {
    var steps := IndexSteps(packageList);
    var index: map<string, Record> := map[];
    for i := 0 to |packageList|
      invariant Fill(steps[..i]) == Ok(index)
    {
      assert steps[i] == IndexStep(packageList[i]);
      FillExtend(steps, i, index);
      var record := RecordFromLines(packageList[i]);
      if record.Err? {
        return Err(record.error);
      }
      var fields := record.value.fields;
      if "Package" !in fields {
        return Err(MissingPackageField(packageList[i]));
      }
      index := index[Lower(fields["Package"]) := record.value];
    }
    assert steps[..|steps|] == steps;
    r := Ok(index);
  }

  /** The index part of `main`: split, fold every block, then key the records. */
  method BuildIndex(text: string) returns (r: Result<map<string, Record>>)
    requires Foldable(text)
    ensures r == IndexOf(text)
  {
    var packageList := FoldBlocks(text);
    r := KeyRecords(packageList);
  }

  /** A record is found under the lower-cased name of any spelling of its
      package, unless a later block has a package of the same lower-cased name. */
  lemma IndexFindsRecord(text: string, j: nat, name: string)
    requires Foldable(text) && IndexOf(text).Ok? && j < |PackageList(text)|
    requires IndexStep(PackageList(text)[j]).Put? && IndexStep(PackageList(text)[j]).key == Lower(name)
    requires forall i :: j < i < |PackageList(text)| ==>
               !(IndexStep(PackageList(text)[i]).Put? && IndexStep(PackageList(text)[i]).key == Lower(name))
    ensures Lookup(IndexOf(text).value, name) == Ok(IndexStep(PackageList(text)[j]).value)
  {
    var steps := IndexSteps(PackageList(text));
    FillLastWins(steps, j);
  }

  /** `cran_metadata[package.lower()]`, or "Package … not found". */
  function Lookup(index: map<string, Record>, package: string): (r: Result<Record>)
    ensures r.Ok? <==> Lower(package) in index
    ensures r.Err? ==> r.error == UnknownPackage(package)
  {
    if Lower(package) in index then Ok(index[Lower(package)]) else Err(UnknownPackage(package))
  }

  /** The lookup does not depend on the case of the requested name. */
  lemma LookupIgnoresCase(index: map<string, Record>, package: string)
    ensures Lookup(index, Lower(package)).Ok? == Lookup(index, package).Ok?
    ensures Lookup(index, package).Ok? ==> Lookup(index, Lower(package)) == Lookup(index, package)
  {
    LowerIdempotent(package);
  }

  /** The last block of a text that ends with a blank line is empty or a lone line break. */
  lemma LastBlockIsBlank(text: string)
    requires |text| >= 2 && text[|text| - 2..] == BlockSeparator
    ensures var blocks := Blocks(text); blocks[|blocks| - 1] in {"", "\n"}
  {
    var blocks := Blocks(text);
    SplitPiecesAreFree(text, BlockSeparator);
    LastPieceIsSuffix(text, BlockSeparator);
    var last := blocks[|blocks| - 1];
    assert last in blocks;
    BlankFreeSuffix(text, last);
  }

  /** A suffix without a blank line, of a text that ends with one, is empty or
      a lone line break. */
  lemma BlankFreeSuffix(text: string, last: string)
    requires |text| >= 2 && text[|text| - 2..] == BlockSeparator
    requires |last| <= |text| && text[|text| - |last|..] == last
    requires !Contains(last, BlockSeparator)
    ensures last == "" || last == "\n"
  {
    if |last| >= 2 {
      assert last[|last| - 2..] == text[|text| - 2..] by {
        assert last[|last| - 2] == text[|text| - 2] && last[|last| - 1] == text[|text| - 1];
      }
      assert OccursAt(last, BlockSeparator, |last| - 2);
    } else if last != [] {
      assert last[0] == text[|text| - 1] == '\n';
    }
  }

  /** A block made of empty lines has no `Package` field. */
  lemma BlankBlockFails(lines: seq<string>)
    requires forall i :: 0 <= i < |lines| ==> lines[i] == ""
    ensures IndexStep(lines).Fail?
  {
    if RecordOf(lines).Ok? {
      RecordKeys(lines);
      assert forall i :: 0 <= i < |lines| ==> !HasKey(lines[i], "Package");
    }
  }

  /** An index text that ends with a blank line has a last block without any
      field, so building the index stops with `KeyError: 'Package'`. */
  lemma TrailingBlankLineFails(text: string)
    requires Foldable(text) && |text| >= 2 && text[|text| - 2..] == BlockSeparator
    ensures IndexOf(text).Err?
  {
    LastBlockIsBlank(text);
    var blocks := Blocks(text);
    var last := blocks[|blocks| - 1];
    assert SplitLines(last) == [] || SplitLines(last) == [""] by {
      if last != "" {
        assert LinesFrom("\n", "") == [""] + LinesFrom("", "");
      }
    }
    var list := PackageList(text);
    var lines := list[|list| - 1];
    assert lines == Normalized(SplitLines(last));
    assert !HasContinuation(SplitLines(last));
    BlankBlockFails(lines);
    var steps := IndexSteps(list);
    assert steps[|steps| - 1].Fail?;
    FillFails(steps);
  }
}
