/**
 Names of archive members, and which of them are safe to create below a directory.

 A name is a string; its path is the list of its components.
 */
module MemberNames {
  type Path = seq<string>

  const MAX_NAME := 1024
  const MAX_COMPONENT := 255
  const MAX_DEPTH := 32

  function Split(s: string): (parts: Path)
    ensures |parts| > 0
  {
    if s == "" then [""]
    else
      var rest := Split(s[1..]);
      if s[0] == '/' then [""] + rest else [[s[0]] + rest[0]] + rest[1..]
  }

  function Join(parts: Path): string {
    if parts == [] then "" else if |parts| == 1 then parts[0] else parts[0] + "/" + Join(parts[1..])
  }

  lemma {:induction false} JoinSplit(s: string)
    ensures Join(Split(s)) == s
  {
    if s != "" {
      var rest := Split(s[1..]);
      JoinSplit(s[1..]);
      if s[0] == '/' {
        assert ([""] + rest)[1..] == rest;
        assert Join([""] + rest) == "/" + Join(rest);
      } else {
        var glued := [[s[0]] + rest[0]] + rest[1..];
        assert glued[1..] == rest[1..];
        assert Join(glued) == [s[0]] + Join(rest);
      }
    }
  }

  predicate NoSlash(c: string) {
    '/' !in c
  }

  lemma {:induction false} JoinHead(parts: Path)
    requires parts != []
    ensures |parts| == 1 ==> Join(parts) == parts[0]
    ensures |parts| > 1 ==> Join(parts) == parts[0] + "/" + Join(parts[1..])
  {
  }

  /** A name's path is the one way to cut it at its slashes. */
  lemma {:induction false} SplitExactly(s: string, parts: Path)
    ensures parts == Split(s) <==> parts != [] && Join(parts) == s && forall c :: c in parts ==> NoSlash(c)
    decreases |s|, |parts|
  {
    JoinSplit(s);
    NoSlashes(s);
    if parts != [] && Join(parts) == s && (forall c :: c in parts ==> NoSlash(c)) {
      JoinHead(parts);
      var head := parts[0];
      if |parts| == 1 {
        assert head in parts;
        WholeSplit(s);
      } else {
        var rest := Join(parts[1..]);
        assert s == head + "/" + rest;
        SplitExactly(rest, parts[1..]);
        assert head in parts;
        CutSplit(head, rest);
        assert parts == [head] + parts[1..];
      }
    }
  }

  lemma {:induction false} NoSlashes(s: string)
    ensures forall c :: c in Split(s) ==> NoSlash(c)
  {
    if s != "" {
      NoSlashes(s[1..]);
      var rest := Split(s[1..]);
      assert rest[0] in rest && forall c :: c in rest[1..] ==> c in rest;
    }
  }

  lemma {:induction false} WholeSplit(s: string)
    requires NoSlash(s)
    ensures Split(s) == [s]
  {
    if s != "" {
      WholeSplit(s[1..]);
      assert s == [s[0]] + s[1..];
    }
  }

  lemma {:induction false} CutSplit(head: string, rest: string)
    requires NoSlash(head)
    ensures Split(head + "/" + rest) == [head] + Split(rest)
  {
    var s := head + "/" + rest;
    if head == "" {
      assert s[1..] == rest;
    } else {
      CutSplit(head[1..], rest);
      assert s[1..] == head[1..] + "/" + rest;
      assert head == [head[0]] + head[1..];
    }
  }

  /** Names that differ are different paths. */
  lemma SplitIsInjective(s: string, t: string)
    requires Split(s) == Split(t)
    ensures s == t
  {
    JoinSplit(s);
    JoinSplit(t);
  }

  predicate CleanComponent(c: string) {
    c != "" && c != "." && c != ".."
  }

  /** `posixpath.normpath` on the components of a relative path. */
  function NormalParts(parts: Path, kept: Path): Path {
    if parts == [] then kept
    else if parts[0] == "" || parts[0] == "." then NormalParts(parts[1..], kept)
    else if parts[0] != ".." || kept == [] || kept[|kept| - 1] == ".." then
      NormalParts(parts[1..], kept + [parts[0]])
    else NormalParts(parts[1..], kept[..|kept| - 1])
  }

  function NormPath(s: string): string {
    var joined := Join(NormalParts(Split(s), []));
    if joined == "" then "." else joined
  }

  predicate SafeName(s: string) {
    && s != "" && '\0' !in s && s[0] != '/'
    && NormPath(s) == s && |s| <= MAX_NAME
    && |Split(s)| <= MAX_DEPTH
    && (forall c :: c in Split(s) ==> CleanComponent(c) && |c| <= MAX_COMPONENT)
  }

  lemma {:induction false} CleanStays(parts: Path, kept: Path)
    requires forall c :: c in parts ==> CleanComponent(c)
    ensures NormalParts(parts, kept) == kept + parts
    decreases |parts|
  {
    if parts != [] {
      assert CleanComponent(parts[0]);
      CleanStays(parts[1..], kept + [parts[0]]);
      assert kept + [parts[0]] + parts[1..] == kept + parts;
    } else {
      assert kept + parts == kept;
    }
  }

  /** Given clean components, a name is not empty, does not start with a slash, and is already normal. */
  lemma SafeExactly(s: string)
    ensures SafeName(s) <==>
            && '\0' !in s && |s| <= MAX_NAME && |Split(s)| <= MAX_DEPTH
            && (forall c :: c in Split(s) ==> CleanComponent(c) && |c| <= MAX_COMPONENT)
  {
    if forall c :: c in Split(s) ==> CleanComponent(c) {
      assert Split(s)[0] in Split(s);
      CleanStays(Split(s), []);
      assert [] + Split(s) == Split(s);
      JoinSplit(s);
    }
  }

  /** A safe path stays below the directory it is created in: following it never climbs. */
  lemma SafeNeverClimbs(s: string, k: nat)
    requires SafeName(s) && k <= |Split(s)|
    ensures NormalParts(Split(s)[..k], []) == Split(s)[..k]
  {
    CleanStays(Split(s)[..k], []);
    assert [] + Split(s)[..k] == Split(s)[..k];
  }
}
