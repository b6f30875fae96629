/** Paths inside an artifact archive: splitting, joining, normalization and ancestry. */
module ArchivePaths {

  import opened Prelude

  // ----- Components -----

  /** Python's `split("/")`. */
  function Split(s: string): seq<string> {
    if s == "" then
      [""]
    else
      var rest := Split(s[1..]);
      if s[0] == '/' then [""] + rest else [[s[0]] + rest[0]] + rest[1..]
  }

  /** Python's `"/".join(parts)`. */
  function Join(parts: seq<string>): string {
    if parts == [] then ""
    else if |parts| == 1 then parts[0]
    else parts[0] + "/" + Join(parts[1..])
  }

  ghost predicate SlashFree(parts: seq<string>) {
    forall i :: 0 <= i < |parts| ==> '/' !in parts[i]
  }

  lemma {:induction false} SplitParts(s: string)
    ensures Split(s) != [] && SlashFree(Split(s)) && Join(Split(s)) == s
  {
    if s != "" {
      var rest := Split(s[1..]);
      SplitParts(s[1..]);
      if s[0] == '/' {
        assert ([""] + rest)[1..] == rest;
        assert "" + "/" + s[1..] == s;
      } else if |rest| == 1 {
        assert [s[0]] + rest[0] == s;
      } else {
        var parts := [[s[0]] + rest[0]] + rest[1..];
        assert parts[1..] == rest[1..];
        assert ([s[0]] + rest[0]) + "/" + Join(rest[1..]) == [s[0]] + (rest[0] + "/" + Join(rest[1..])) == s;
      }
    }
  }

  /** Splitting at the first slash. */
  lemma {:induction false} SplitAtSlash(part: string, rest: string)
    requires '/' !in part
    ensures Split(part) == [part]
    ensures Split(part + "/" + rest) == [part] + Split(rest)
  {
    if part == "" {
      assert (part + "/" + rest)[1..] == rest;
    } else {
      SplitAtSlash(part[1..], rest);
      assert (part + "/" + rest)[1..] == part[1..] + "/" + rest;
      assert part == [part[0]] + part[1..];
    }
  }

  lemma {:induction false} SplitOfJoin(parts: seq<string>)
    requires parts != [] && SlashFree(parts)
    ensures Split(Join(parts)) == parts
  {
    SplitAtSlash(parts[0], Join(parts[1..]));
    if |parts| > 1 {
      SplitOfJoin(parts[1..]);
    }
  }

  // ----- Normalization -----

  datatype PathError = EmptyOrNul | AbsolutePath | Traversal | RootOnly | NotExact

  /** Python's `replace("\\", "/")`. */
  function ForwardSlashes(s: string): string {
    seq(|s|, i requires 0 <= i < |s| => if s[i] == '\\' then '/' else s[i])
  }

  predicate IsLetter(c: char) {
    'A' <= c <= 'Z' || 'a' <= c <= 'z'
  }

  predicate DrivePrefixed(s: string) {
    |s| >= 2 && IsLetter(s[0]) && s[1] == ':'
  }

  /** A component that survives normalization. */
  predicate Kept(part: string) {
    part != "" && part != "."
  }

  function KeptParts(parts: seq<string>): seq<string> {
    if parts == [] then []
    else if Kept(parts[0]) then [parts[0]] + KeptParts(parts[1..])
    else KeptParts(parts[1..])
  }

  function Normalize(raw: string): Result<string, PathError> {
    if raw == "" || '\0' in raw then
      Err(EmptyOrNul)
    else
      var candidate := ForwardSlashes(raw);
      if candidate[0] == '/' || DrivePrefixed(candidate) then
        Err(AbsolutePath)
      else if ".." in Split(candidate) then
        Err(Traversal)
      else if KeptParts(Split(candidate)) == [] then
        Err(RootOnly)
      else
        Ok(Join(KeptParts(Split(candidate))))
  }

  method NormalizeArchivePath(raw: string) returns (r: Result<string, PathError>)
    ensures r == Normalize(raw)
  {
    if raw == "" || '\0' in raw {
      return Err(EmptyOrNul);
    }
    var candidate := ForwardSlashes(raw);
    if candidate[0] == '/' || DrivePrefixed(candidate) {
      return Err(AbsolutePath);
    }
    var split := Split(candidate);
    var parts: seq<string> := [];
    for i := 0 to |split|
      invariant ".." !in split[..i]
      invariant KeptParts(split) == parts + KeptParts(split[i..])
    {
      assert split[i..][1..] == split[i + 1..];
      assert parts + ([split[i]] + KeptParts(split[i + 1..])) == parts + [split[i]] + KeptParts(split[i + 1..]);
      if !Kept(split[i]) {
        continue;
      }
      if split[i] == ".." {
        return Err(Traversal);
      }
      parts := parts + [split[i]];
    }
    assert split[..|split|] == split && split[|split|..] == [];
    assert parts == KeptParts(split);
    if parts == [] {
      return Err(RootOnly);
    }
    r := Ok(Join(parts));
  }

  /** An exact path of the kind normalization produces. */
  ghost predicate Normal(path: string) {
    && '\0' !in path && '\\' !in path && ".." !in Split(path)
    && forall i :: 0 <= i < |Split(path)| ==> Kept(Split(path)[i])
  }

  lemma {:induction false} KeptPartsMeaning(parts: seq<string>)
    ensures forall part :: part in KeptParts(parts) <==> part in parts && Kept(part)
  {
    if parts != [] {
      KeptPartsMeaning(parts[1..]);
      assert parts == [parts[0]] + parts[1..];
    }
  }

  lemma {:induction false} AllKept(parts: seq<string>)
    requires forall i :: 0 <= i < |parts| ==> Kept(parts[i])
    ensures KeptParts(parts) == parts
  {
    if parts != [] {
      AllKept(parts[1..]);
    }
  }

  /** A character of a component is a character of the path. */
  lemma {:induction false} PartOfPath(s: string, part: string, c: char)
    requires part in Split(s) && c in part
    ensures c in s
  {
    if s != "" {
      var rest := Split(s[1..]);
      if part in rest {
        PartOfPath(s[1..], part, c);
      } else if s[0] != '/' {
        assert part == [s[0]] + rest[0];
        if c in rest[0] {
          PartOfPath(s[1..], rest[0], c);
        }
      }
    }
  }

  lemma {:induction false} JoinedCharacters(parts: seq<string>, c: char)
    requires c in Join(parts)
    ensures c == '/' || exists i :: 0 <= i < |parts| && c in parts[i]
  {
    if |parts| > 1 && c !in parts[0] && c != '/' {
      JoinedCharacters(parts[1..], c);
      var i :| 0 <= i < |parts[1..]| && c in parts[1..][i];
      assert c in parts[i + 1];
    }
  }

  /** What normalization returns is in normal form and has exactly the kept components. */
  lemma NormalizeIsNormal(raw: string)
    requires Normalize(raw).Ok?
    ensures Normal(Normalize(raw).value)
    ensures Split(Normalize(raw).value) == KeptParts(Split(ForwardSlashes(raw)))
  {
    var candidate := ForwardSlashes(raw);
    var parts := KeptParts(Split(candidate));
    var path := Join(parts);
    SplitParts(candidate);
    KeptPartsMeaning(Split(candidate));
    forall i | 0 <= i < |parts| ensures '/' !in parts[i] && parts[i] in Split(candidate) && Kept(parts[i]) {
      assert parts[i] in parts;
    }
    SplitOfJoin(parts);
    forall c | c in path ensures c != '\0' && c != '\\' {
      JoinedCharacters(parts, c);
      if c != '/' {
        var i :| 0 <= i < |parts| && c in parts[i];
        assert parts[i] in parts;
        PartOfPath(candidate, parts[i], c);
      }
    }
  }

  lemma NormalIsUnchanged(path: string)
    requires path != "" && Normal(path) && !DrivePrefixed(path)
    ensures Normalize(path) == Ok(path)
  {
    assert ForwardSlashes(path) == path;
    SplitParts(path);
    AllKept(Split(path));
  }

  /** The caller of a content read must name the file by its listed path. */
  function RequireNormalizedRequestedPath(path: string): Result<string, PathError> {
    match Normalize(path)
    case Err(e) => Err(e)
    case Ok(normalized) => if normalized != path then Err(NotExact) else Ok(normalized)
  }

  /** A requested path is accepted exactly when it is in normal form and has no drive prefix. */
  lemma AcceptedPaths(path: string)
    ensures RequireNormalizedRequestedPath(path) == Ok(path) <==> Normal(path) && !DrivePrefixed(path)
    ensures RequireNormalizedRequestedPath(path).Ok? ==> RequireNormalizedRequestedPath(path) == Ok(path)
  {
    if path == "" {
      assert !Kept(Split(path)[0]);
    } else if Normal(path) && !DrivePrefixed(path) {
      NormalIsUnchanged(path);
    } else if Normalize(path) == Ok(path) {
      NormalizeIsNormal(path);
    }
  }

  /** A listed path can be requested again exactly when its first component is no drive. */
  lemma ListedPathIsAccepted(raw: string)
    requires Normalize(raw).Ok?
    ensures var path := Normalize(raw).value;
            RequireNormalizedRequestedPath(path) == Ok(path) <==> !DrivePrefixed(path)
  {
    NormalizeIsNormal(raw);
    AcceptedPaths(Normalize(raw).value);
  }

  lemma DotDriveParts()
    ensures Split("./C:/x") == [".", "C:", "x"]
  {
    SplitAtSlash("x", "");
    assert "C:/x" == "C:" + "/" + "x";
    SplitAtSlash("C:", "x");
    assert "./C:/x" == "." + "/" + "C:/x";
    SplitAtSlash(".", "C:/x");
  }

  /** Dropping a leading "." can uncover a drive prefix. */
  lemma UncoveredDrive()
    ensures Normalize("./C:/x") == Ok("C:/x")
    ensures RequireNormalizedRequestedPath("C:/x") == Err(AbsolutePath)
  {
    DotDriveParts();
    assert ForwardSlashes("./C:/x") == "./C:/x" && ForwardSlashes("C:/x") == "C:/x";
    AllKept(["C:", "x"]);
    assert [".", "C:", "x"][1..] == ["C:", "x"];
    assert Join(["C:", "x"]) == "C:" + "/" + Join(["x"]) == "C:/x";
  }

  /** A component that names the parent directory, whichever slash sets it off. */
  predicate Climbs(raw: string) {
    ".." in Split(ForwardSlashes(raw))
  }

  /** Why a path of an archive is refused, in terms of the path as it was stored. */
  lemma RefusedPaths(raw: string)
    ensures Normalize(raw) == Err(EmptyOrNul) <==> raw == "" || (exists i :: 0 <= i < |raw| && raw[i] as int == 0)
    ensures Normalize(raw) == Err(AbsolutePath) <==>
            && Normalize(raw) != Err(EmptyOrNul)
            && (raw[0] == '/' || raw[0] == '\\'
                || (|raw| > 1 && raw[1] == ':' && ('a' <= raw[0] <= 'z' || 'A' <= raw[0] <= 'Z')))
    ensures Normalize(raw) == Err(Traversal) <==>
            Normalize(raw) != Err(EmptyOrNul) && Normalize(raw) != Err(AbsolutePath) && Climbs(raw)
    ensures Normalize(raw) == Err(RootOnly) ==>
              forall part :: part in Split(ForwardSlashes(raw)) ==> part == "" || part == "."
    ensures Normalize(raw) != Err(NotExact)
  {
    KeptPartsMeaning(Split(ForwardSlashes(raw)));
  }

  // ----- Ancestry -----

  /** The paths of all directories above this one, outermost first, without the root. */
  function Parents(path: string): seq<string> {
    SplitParts(path);
    seq(|Split(path)| - 1, k requires 0 <= k < |Split(path)| - 1 => Join(Split(path)[..k + 1]))
  }

  predicate Ancestor(path: string, other: string) {
    path in Parents(other)
  }

  lemma {:induction false} JoinAppend(front: seq<string>, back: seq<string>)
    requires front != [] && back != []
    ensures Join(front + back) == Join(front) + "/" + Join(back)
  {
    assert (front + back)[1..] == front[1..] + back;
    if |front| > 1 {
      JoinAppend(front[1..], back);
      assert front[0] + "/" + (Join(front[1..]) + "/" + Join(back))
          == (front[0] + "/" + Join(front[1..])) + "/" + Join(back);
    }
  }

  /** Ancestry compares whole components: "a/b" is above "a/b/c", not above "a/bc". */
  lemma AncestorIsComponentPrefix(path: string, other: string)
    ensures Ancestor(path, other) <==> Split(path) < Split(other)
  {
    var parts := Split(other);
    SplitParts(path);
    SplitParts(other);
    if Ancestor(path, other) {
      var k :| 0 <= k < |parts| - 1 && Join(parts[..k + 1]) == path;
      SplitOfJoin(parts[..k + 1]);
    }
    if Split(path) < parts {
      assert parts[..|Split(path)|] == Split(path);
      assert Parents(other)[|Split(path)| - 1] == path;
    }
  }

  lemma Above(path: string, other: string)
    requires Split(path) < Split(other)
    ensures path + "/" <= other
  {
    var parts, n := Split(other), |Split(path)|;
    SplitParts(path);
    SplitParts(other);
    assert parts == parts[..n] + parts[n..] && parts[..n] == Split(path);
    JoinAppend(parts[..n], parts[n..]);
  }

  lemma Below(path: string, rest: string)
    ensures Split(path) < Split(path + "/" + rest)
  {
    SplitParts(path);
    SplitParts(rest);
    JoinAppend(Split(path), Split(rest));
    SplitOfJoin(Split(path) + Split(rest));
  }

  /** In terms of text: one path starts with the other and a slash. */
  lemma AncestorIsTextPrefix(path: string, other: string)
    ensures Ancestor(path, other) <==> path + "/" <= other
  {
    AncestorIsComponentPrefix(path, other);
    if Split(path) < Split(other) {
      Above(path, other);
    }
    if path + "/" <= other {
      var rest := other[|path + "/"|..];
      Below(path, rest);
      assert path + "/" + rest == other;
    }
  }
}
