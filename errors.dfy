/** The fatal conditions of the converter. The original stops the whole run on
    each of them (an exception or `sys.exit`); here each is a value. */
module Errors {

  datatype Error =
    /** A non-empty record line that does not split on ": " into exactly two parts. */
    | MalformedLine(line: string)
    /** A block of the index that has no `Package` field, so it cannot be keyed. */
    | MissingPackageField(lines: seq<string>)
    /** A requested package that is not in the index (compared in lower case). */
    | UnknownPackage(name: string)
    /** A specific package version was requested; the converter does not support it. */
    | VersionsNotImplemented
    /** The record of a requested package has no `Version` field. */
    | MissingVersionField(name: string)
    /** A dependency token that the dependency grammar does not match. */
    | UnparsableDependency(package: string, token: string)
    /** A dependency token that carries an architecture list. */
    | ArchsNotSupported(package: string, token: string)

  datatype Result<+T> = Ok(value: T) | Err(error: Error)

  /** The message the original exits with. The three conditions that are
      uncaught Python exceptions rather than deliberate exits keep only the
      exception's class (and, for a `KeyError`, the missing key); Python's own
      wording of the exception is not modelled. */
  function Message(e: Error): string {
    match e
    case UnknownPackage(name) => "Package " + name + " not found"
    case UnparsableDependency(package, token) =>
      "Could not parse version from dependency of " + package + ": " + token
    case ArchsNotSupported(package, token) =>
      "Don't know how to handle archs from dependency of package " + package + ": " + token
    case VersionsNotImplemented => "Package versions from CRAN are not yet implemented"
    case MalformedLine(_) => "ValueError"
    case MissingPackageField(_) => "KeyError: 'Package'"
    case MissingVersionField(_) => "KeyError: 'Version'"
  }

  /** The exit for a package missing from the index names it right after
      "Package ". */
  lemma MessageNamesPackage(name: string)
    ensures var m := Message(UnknownPackage(name));
            |m| == |name| + 18 && m[8..8 + |name|] == name
  {
    var m := Message(UnknownPackage(name));
    assert m == "Package " + name + " not found";
    assert m[8..8 + |name|] == name;
  }

  /** In `opening + x + ": " + y`, `x` sits right after the opening and `y` ends it. */
  lemma Framed(opening: string, x: string, y: string)
    ensures var m := opening + x + ": " + y;
            |m| == |opening| + |x| + 2 + |y|
            && m[|opening|..|opening| + |x|] == x && m[|m| - |y|..] == y
  {
    var m := opening + x + ": " + y;
    assert m == opening + (x + (": " + y));
    assert m[|opening|..] == x + (": " + y);
    assert (x + (": " + y))[..|x|] == x;
    assert m[|m| - |y|..] == (": " + y)[2..];
  }

  /** The exits for an unusable dependency token name the package right after
      their fixed opening and end with the token itself. */
  lemma MessageNamesToken(e: Error)
    ensures e.UnparsableDependency? ==>
              var m := Message(e);
              |m| == 45 + |e.package| + |e.token| && m[43..43 + |e.package|] == e.package
              && m[|m| - |e.token|..] == e.token
    ensures e.ArchsNotSupported? ==>
              var m := Message(e);
              |m| == 60 + |e.package| + |e.token| && m[58..58 + |e.package|] == e.package
              && m[|m| - |e.token|..] == e.token
  {
    match e
    case UnparsableDependency(package, token) =>
      var opening := "Could not parse version from dependency of ";
      assert |opening| == 43;
      assert Message(e) == opening + package + ": " + token;
      Framed(opening, package, token);
    case ArchsNotSupported(package, token) =>
      var opening := "Don't know how to handle archs from dependency of package ";
      assert |opening| == 58;
      assert Message(e) == opening + package + ": " + token;
      Framed(opening, package, token);
    case _ =>
  }
}
