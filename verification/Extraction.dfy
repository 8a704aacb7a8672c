/**
 Extracting the Python runtime archive, sealing the tree, publishing it, and the check made before
 a published tree is reused.
 */
module Extraction {
  import opened Options
  import opened MemberNames

  const MAX_MEMBERS := 20000
  const MAX_EXTRACTED := 256 * 1024 * 1024
  const MAX_MEMBER_BYTES := 96 * 1024 * 1024

  // ----- The archive

  datatype MemberKind = DirectoryMember | RegularMember | OtherMember

  datatype Member = Member(
    name: string, extraHeaders: bool, kind: MemberKind, sparse: bool, size: nat, data: seq<bv8>, mode: bv16)
  {
    function Path(): Path {
      Split(name)
    }

    predicate Executable() {
      kind.RegularMember? && mode & 0x40 != 0 // 0o100
    }
  }

  /** The members the reader yields, and whether it then fails instead of ending. */
  datatype Archive = Archive(members: seq<Member>, broken: bool)

  function Total(members: seq<Member>): nat {
    if members == [] then 0
    else
      var last := members[|members| - 1];
      Total(members[..|members| - 1]) + if last.kind.RegularMember? then last.size else 0
  }

  lemma {:induction false} TotalGrows(members: seq<Member>, k: nat)
    requires k <= |members|
    ensures Total(members[..k]) <= Total(members)
  {
    if k == |members| {
      assert members[..k] == members;
    } else {
      var rest := members[..|members| - 1];
      assert rest[..k] == members[..k];
      TotalGrows(rest, k);
    }
  }

  predicate Sane(m: Member) {
    && !m.extraHeaders && !m.kind.OtherMember? && !m.sparse
    && SafeName(m.name)
    && (m.kind.RegularMember? ==> m.size <= MAX_MEMBER_BYTES && |m.data| == m.size)
  }

  predicate DistinctNames(members: seq<Member>) {
    forall i, j :: 0 <= i < j < |members| ==> members[i].name != members[j].name
  }

  /** Member `i` is a file at or above member `j`. */
  predicate FileAbove(members: seq<Member>, i: nat, j: nat)
    requires i < |members| && j < |members|
  {
    i != j && members[i].kind.RegularMember? && On(members[i].Path(), members[j].Path())
  }

  predicate NoFileAbove(members: seq<Member>) {
    forall i: nat, j: nat :: i < |members| && j < |members| ==> !FileAbove(members, i, j)
  }

  /** What an archive has to be, whatever the order of its members. */
  predicate Extractable(members: seq<Member>) {
    && |members| <= MAX_MEMBERS
    && (forall m :: m in members ==> Sane(m))
    && DistinctNames(members)
    && Total(members) <= MAX_EXTRACTED
    && NoFileAbove(members)
  }

  // ----- The tree

  datatype Content = Folder | Bytes(data: seq<bv8>)

  datatype Node = Node(content: Content, mode: bv16, links: nat, owned: bool)

  const NEW_FOLDER := Node(Folder, 0x1C0, 1, true) // 0o700

  function NewFile(data: seq<bv8>): Node {
    Node(Bytes(data), 0x180, 1, true) // 0o600
  }

  /** `q` is `p`, or a directory above it. */
  predicate On(q: Path, p: Path) {
    q != [] && q <= p
  }

  /** A path some member names, or a directory above one. */
  predicate Wanted(members: seq<Member>, p: Path) {
    exists m :: m in members && On(p, m.Path())
  }

  predicate FileWanted(members: seq<Member>, p: Path) {
    exists m :: m in members && m.kind.RegularMember? && m.Path() == p
  }

  /** The tree is exactly the members and the directories above them. */
  ghost predicate Mirrors(nodes: map<Path, Node>, members: seq<Member>) {
    && (forall p :: p in nodes <==> Wanted(members, p))
    && (forall m :: m in members && m.kind.RegularMember? ==> m.Path() in nodes && nodes[m.Path()] == NewFile(m.data))
    && (forall p :: p in nodes && !FileWanted(members, p) ==> nodes[p] == NEW_FOLDER)
  }

  function ExecutablesOf(members: seq<Member>): set<string> {
    set m | m in members && m.Executable() :: m.name
  }

  function NamesOf(members: seq<Member>): set<string> {
    set m | m in members :: m.name
  }

  /** `mkdir` and exclusive creation of a file, as one directory tree sees them. */
  predicate FolderAt(nodes: map<Path, Node>, p: Path) {
    p == [] || (p in nodes && nodes[p].content.Folder?)
  }

  predicate NoFileOn(nodes: map<Path, Node>, p: Path) {
    forall q :: q in nodes && On(q, p) ==> nodes[q].content.Folder?
  }

  ghost predicate FoldersAdded(before: map<Path, Node>, nodes: map<Path, Node>, p: Path) {
    && (forall q :: q in nodes <==> q in before || On(q, p))
    && (forall q :: q in before ==> nodes[q] == before[q])
    && (forall q :: q in nodes && q !in before ==> nodes[q] == NEW_FOLDER)
  }

  // ----- Rewriting, sealing and reuse

  /** The files whose recorded prefix is replaced, with what they then hold. */
  type Rewrites = map<Path, seq<bv8>>

  function RewrittenNode(p: Path, n: Node, rewrites: Rewrites): Node {
    if n.content.Bytes? && p in rewrites then n.(content := Bytes(rewrites[p])) else n
  }

  /** What a member's file holds when staging is done. */
  function FinalBytes(m: Member, rewrites: Rewrites): seq<bv8> {
    if m.Path() in rewrites then rewrites[m.Path()] else m.data
  }

  function SealedNode(p: Path, n: Node, executables: set<string>): Node {
    n.(mode := if n.content.Folder? || Join(p) in executables then 0x140 else 0x100) // 0o500, 0o400
  }

  /** No write for others, no set-id or sticky bit: masks 0o022 and 0o7000. */
  predicate TightMode(mode: bv16) {
    mode & 0x12 == 0 && mode & 0xE00 == 0
  }

  predicate OwnAndSingle(n: Node) {
    n.owned && (n.content.Bytes? ==> n.links == 1)
  }

  predicate ReusableNode(n: Node) {
    && (if n.content.Folder? then n.mode == 0x140 else n.mode in {0x100, 0x140} && n.links == 1)
    && n.owned && TightMode(n.mode)
  }

  datatype Profile = Profile(interpreter: Path, files: seq<Path>, folders: seq<Path>, forbidden: seq<Path>)

  predicate ContentMatches(nodes: map<Path, Node>, profile: Profile) {
    && (forall p :: p in profile.files ==> p in nodes && nodes[p].content.Bytes?)
    && (forall p :: p in profile.folders ==> FolderAt(nodes, p))
    && (forall p :: p in profile.forbidden ==> p != [] && p !in nodes)
  }

  predicate Reusable(nodes: map<Path, Node>, root: bv16, published: bool, profile: Profile) {
    && published && root == 0x140
    && (forall p :: p in nodes ==> ReusableNode(nodes[p]))
    && ContentMatches(nodes, profile)
    && profile.interpreter in nodes && nodes[profile.interpreter].content.Bytes?
  }

  /** What the profile asks for, said of the archive alone. */
  predicate Holds(members: seq<Member>, profile: Profile) {
    && FileWanted(members, profile.interpreter)
    && (forall p :: p in profile.files ==> FileWanted(members, p))
    && (forall p :: p in profile.folders ==> p == [] || (Wanted(members, p) && !FileWanted(members, p)))
    && (forall p :: p in profile.forbidden ==> p != [] && !Wanted(members, p))
  }

  /** Where staging may die: within the members, the rewriting or the sealing, or between two stages. */
  datatype Point =
    | Extracting(members: nat)
    | Substituting(paths: set<Path>)
    | Sealing(paths: set<Path>)
    | Sealed
    | Renamed

  class PythonTree {
    var nodes: map<Path, Node>
    var root: bv16
    var published: bool

    constructor ()
      ensures nodes == map[] && root == 0x1C0 && !published
    {
      nodes := map[];
      root := 0x1C0;
      published := false;
    }

    /** Whether the directory could be made: it was not there, and its parent is a directory. */
    method Mkdir(p: Path) returns (made: bool)
      requires p != []
      modifies this`nodes
      ensures made <==> p !in old(nodes) && FolderAt(old(nodes), p[..|p| - 1])
      ensures nodes == if made then old(nodes)[p := NEW_FOLDER] else old(nodes)
    {
      made := p !in nodes && FolderAt(nodes, p[..|p| - 1]);
      if made { nodes := nodes[p := NEW_FOLDER]; }
    }

    method MakeDirectory(parts: Path) returns (ok: bool)
      modifies this`nodes
      ensures ok <==> NoFileOn(old(nodes), parts)
      ensures ok ==> FoldersAdded(old(nodes), nodes, parts)
    {
      assert parts[..0] == [];
      for index := 1 to |parts| + 1
        invariant FolderAt(nodes, parts[..index - 1])
        invariant NoFileOn(old(nodes), parts[..index - 1])
        invariant FoldersAdded(old(nodes), nodes, parts[..index - 1])
      {
        var current := parts[..index];
        assert current[..index - 1] == parts[..index - 1];
        OnStep(current);
        assert On(current, parts);
        var made := Mkdir(current);
        if !made {
          assert current in nodes;
          if !nodes[current].content.Folder? { return false; }
        }
      }
      assert parts[..|parts|] == parts;
      ok := true;
    }

    /** Exclusive creation: refused when the path is there already or its parent is not a directory. */
    method Create(p: Path, data: seq<bv8>) returns (ok: bool)
      requires p != []
      modifies this`nodes
      ensures ok <==> p !in old(nodes) && FolderAt(old(nodes), p[..|p| - 1])
      ensures nodes == if ok then old(nodes)[p := NewFile(data)] else old(nodes)
    {
      ok := p !in nodes && FolderAt(nodes, p[..|p| - 1]);
      if ok { nodes := nodes[p := NewFile(data)]; }
    }

    /** Extraction succeeds exactly on extractable archives, and then the tree mirrors the members. */
    method Extract(archive: Archive) returns (executables: Option<set<string>>)
      requires nodes == map[]
      modifies this`nodes
      ensures executables.Some? <==> !archive.broken && Extractable(archive.members)
      ensures executables.Some? ==> Mirrors(nodes, archive.members)
      ensures executables.Some? ==> executables.value == ExecutablesOf(archive.members)
    {
      hide Mirrors, Extractable, Sane, SafeName, Total, NamesOf, ExecutablesOf, NoFileOn, FoldersAdded;
      var marked: set<string> := {};
      var seen: set<string> := {};
      var members, extracted := 0, 0;
      ghost var all := archive.members;
      NothingYet();
      assert all[..0] == [];
      while members < |archive.members|
        invariant 0 <= members <= |all| && members <= MAX_MEMBERS
        invariant Extractable(all[..members])
        invariant Mirrors(nodes, all[..members])
        invariant marked == ExecutablesOf(all[..members])
        invariant seen == NamesOf(all[..members])
        invariant extracted == Total(all[..members])
      {
        var info := archive.members[members];
        members := members + 1;
        ghost var done, before := all[..members - 1], nodes;
        assert all[..members] == done + [info];
        OneMore(done, info);
        Refusals(all, members - 1);
        if members > MAX_MEMBERS { return None; }
        if info.extraHeaders { return None; }
        if !info.kind.DirectoryMember? && !info.kind.RegularMember? { return None; }
        if info.sparse { return None; }
        if !SafeName(info.name) { return None; }
        if info.name in seen { return None; }
        seen := seen + {info.name};
        if info.kind.DirectoryMember? {
          var ok := MakeDirectory(info.Path());
          if !ok {
            FolderBlocked(all, members - 1, before, info.Path());
            return None;
          }
          SaneDirectory(info);
          FolderFits(done, info, before, nodes);
          continue;
        }
        if info.size > MAX_MEMBER_BYTES { return None; }
        extracted := extracted + info.size;
        if extracted > MAX_EXTRACTED { return None; }
        var parent := Parent(info);
        if parent == [] {
          NoParent(nodes);
        } else {
          var ok := MakeDirectory(parent);
          if !ok {
            FolderBlocked(all, members - 1, before, parent);
            return None;
          }
        }
        ghost var between := nodes;
        var ok := Create(info.Path(), info.data);
        if !ok {
          FileBlocked(all, members - 1, before, between);
          return None;
        }
        if |info.data| != info.size { return None; }
        SaneFile(info);
        FileFits(done, info, before, between);
        if info.Executable() { marked := marked + {info.name}; }
      }
      assert all[..members] == all;
      if archive.broken { return None; }
      executables := Some(marked);
    }

    /** Replaces the recorded prefix in the given paths, one after the other. */
    method Substitute(rewrites: Rewrites, paths: set<Path>)
      modifies this`nodes
      ensures nodes.Keys == old(nodes).Keys
      ensures forall p :: p in nodes ==>
        nodes[p] == if p in paths then RewrittenNode(p, old(nodes)[p], rewrites) else old(nodes)[p]
    {
      var pending := paths * nodes.Keys;
      while pending != {}
        invariant pending <= paths * nodes.Keys && nodes.Keys == old(nodes).Keys
        invariant forall p :: p in nodes ==>
          nodes[p] == if p in paths && p !in pending then RewrittenNode(p, old(nodes)[p], rewrites) else old(nodes)[p]
      {
        var p :| p in pending;
        pending := pending - {p};
        if nodes[p].content.Bytes? && p in rewrites {
          nodes := nodes[p := nodes[p].(content := Bytes(rewrites[p]))];
        }
      }
    }

    /** Gives the entries at the given paths their sealed modes. */
    method SealPaths(executables: set<string>, paths: set<Path>)
      modifies this`nodes
      ensures nodes.Keys == old(nodes).Keys
      ensures forall p :: p in nodes ==>
        nodes[p] == if p in paths then SealedNode(p, old(nodes)[p], executables) else old(nodes)[p]
    {
      var pending := paths * nodes.Keys;
      while pending != {}
        invariant pending <= paths * nodes.Keys && nodes.Keys == old(nodes).Keys
        invariant forall p :: p in nodes ==>
          nodes[p] == if p in paths && p !in pending then SealedNode(p, old(nodes)[p], executables) else old(nodes)[p]
      {
        var p :| p in pending;
        pending := pending - {p};
        var mode := if nodes[p].content.Folder? || Join(p) in executables then 0x140 else 0x100;
        nodes := nodes[p := nodes[p].(mode := mode)];
      }
    }

    /** Every entry gets its sealed mode, the root stays writable; then the whole tree is looked over. */
    method Seal(executables: set<string>) returns (ok: bool)
      modifies this
      ensures published == old(published) && root == 0x1C0 && nodes.Keys == old(nodes).Keys
      ensures forall p :: p in nodes ==> nodes[p] == SealedNode(p, old(nodes)[p], executables)
      ensures ok <==> forall p :: p in nodes ==> OwnAndSingle(nodes[p])
    {
      SealPaths(executables, nodes.Keys);
      root := 0x1C0;
      ok := true;
      var pending := nodes.Keys;
      while pending != {}
        invariant pending <= nodes.Keys
        invariant forall p :: p in nodes && p !in pending ==> OwnAndSingle(nodes[p])
      {
        var p :| p in pending;
        pending := pending - {p};
        if nodes[p].content.Bytes? && nodes[p].links != 1 { return false; }
        if !nodes[p].owned || !TightMode(nodes[p].mode) { return false; }
      }
    }

    predicate IsFile(p: Path)
      reads this
    {
      p in nodes && nodes[p].content.Bytes?
    }

    predicate IsFolder(p: Path)
      reads this
    {
      FolderAt(nodes, p)
    }

    method AssertContent(profile: Profile) returns (ok: bool)
      ensures ok <==> ContentMatches(nodes, profile)
    {
      for i := 0 to |profile.files|
        invariant forall j :: 0 <= j < i ==> IsFile(profile.files[j])
      {
        assert profile.files[i] in profile.files;
        if !IsFile(profile.files[i]) { return false; }
      }
      for i := 0 to |profile.folders|
        invariant forall j :: 0 <= j < i ==> IsFolder(profile.folders[j])
      {
        assert profile.folders[i] in profile.folders;
        if !IsFolder(profile.folders[i]) { return false; }
      }
      for i := 0 to |profile.forbidden|
        invariant forall j :: 0 <= j < i ==> profile.forbidden[j] != [] && profile.forbidden[j] !in nodes
      {
        assert profile.forbidden[i] in profile.forbidden;
        if profile.forbidden[i] == [] || profile.forbidden[i] in nodes { return false; }
      }
      ok := true;
    }

    /** The check before a published tree is used again. */
    method AssertStaged(profile: Profile) returns (ok: bool)
      ensures ok <==> Reusable(nodes, root, published, profile)
      ensures Stuck(root, published) ==> !ok
    {
      if !published || root != 0x140 { return false; }
      var pending := nodes.Keys;
      while pending != {}
        invariant pending <= nodes.Keys
        invariant forall p :: p in nodes && p !in pending ==> ReusableNode(nodes[p])
      {
        var p :| p in pending;
        pending := pending - {p};
        if nodes[p].content.Folder? {
          if nodes[p].mode != 0x140 { return false; }
        } else if nodes[p].mode !in {0x100, 0x140} || nodes[p].links != 1 {
          return false;
        }
        if !nodes[p].owned || !TightMode(nodes[p].mode) { return false; }
      }
      var matches := AssertContent(profile);
      ok := matches && IsFile(profile.interpreter);
    }

    /** Whatever raises before the rename has the temporary tree removed. */
    method Remove()
      modifies this`nodes
      ensures nodes == map[]
    {
      nodes := map[];
    }

    /**
     Staging an archive, cut short at `stop` if the process dies there.  With nothing at the destination
     yet it succeeds exactly when the archive is extractable, holds what the profile asks for and passes
     inspection, and what is then published passes the reuse check and holds the members' bytes, rewritten.
     A destination that is there already is refused and left alone.  The destination comes to be there by a
     successful staging or by one that dies between its rename and its last mode change.
     */
    method Stage(
      archive: Archive, profile: Profile, rewrites: Rewrites, substituted: bool, linked: bool, probed: bool,
      stop: Option<Point>)
      returns (ok: bool)
      requires !published ==> nodes == map[] && root == 0x1C0
      modifies this
      ensures ok <==> !old(published) && stop.None? && Acceptable(archive, profile, substituted, linked, probed)
      ensures old(published) ==> nodes == old(nodes) && root == old(root) && published
      ensures !old(published) ==>
        && (published <==> Acceptable(archive, profile, substituted, linked, probed) && (stop.None? || stop.value.Renamed?))
        && (root == 0x140 <==> ok)
        && (ok <==> Reusable(nodes, root, published, profile))
        && (published ==> forall p :: p in nodes <==> Wanted(archive.members, p))
        && (published ==> forall m :: m in archive.members && m.kind.RegularMember? ==>
              m.Path() in nodes && nodes[m.Path()].content == Bytes(FinalBytes(m, rewrites)))
        && (published ==> forall m :: m in archive.members && m.kind.RegularMember? ==>
              m.Path() in nodes && nodes[m.Path()].mode == if m.mode & 0x40 != 0 then 0x140 else 0x100)
        && (published ==> forall p :: p in nodes && !FileWanted(archive.members, p) ==>
              nodes[p].content.Folder? && nodes[p].mode == 0x140)
      ensures !published && stop.None? ==> nodes == map[]
      ensures Stuck(root, published) <==>
        if old(published) then Stuck(old(root), true)
        else Acceptable(archive, profile, substituted, linked, probed) && stop.Some? && stop.value.Renamed?
    {
      hide Extractable, Mirrors, ContentMatches, Holds, ReusableNode, OwnAndSingle, SealedNode, RewrittenNode, Wanted;
      if published { return false; }
      if stop.Some? && stop.value.Extracting? {
        var count := if stop.value.members <= |archive.members| then stop.value.members else |archive.members|;
        var _ := Extract(Archive(archive.members[..count], true));
        return false;
      }
      var executables := Extract(archive);
      ghost var extracted := nodes;
      if executables.None? {
        Remove();
        return false;
      }
      if stop.Some? && stop.value.Substituting? {
        Substitute(rewrites, stop.value.paths);
        return false;
      }
      Substitute(rewrites, nodes.Keys);
      if !substituted {
        Remove();
        return false;
      }
      if stop.Some? && stop.value.Sealing? {
        SealPaths(executables.value, stop.value.paths);
        return false;
      }
      ok := Seal(executables.value);
      SealedPasses(archive.members, extracted, nodes, rewrites, executables.value);
      ContentIsMembers(archive.members, extracted, nodes, rewrites, executables.value, profile);
      NamesDiffer(archive.members);
      ModesAreMembers(archive.members, extracted, nodes, rewrites);
      if stop.Some? && stop.value.Sealed? { return false; }
      if ok && linked {
        ok := AssertContent(profile);
        ok := ok && probed && IsFile(profile.interpreter);
      } else {
        ok := false;
      }
      if !ok {
        Remove();
        return false;
      }
      published := true;
      if stop.Some? && stop.value.Renamed? { return false; }
      root := 0x140;
    }
  }

  /** What staging asks of an archive and of its inspections. */
  predicate Acceptable(archive: Archive, profile: Profile, substituted: bool, linked: bool, probed: bool) {
    !archive.broken && Extractable(archive.members) && Holds(archive.members, profile) && substituted && linked && probed
  }

  /**
   The one state that neither way on leads out of: a destination that is there and does not pass the reuse
   check.  Staging leaves it exactly when it dies between its rename and its last mode change.
   */
  predicate Stuck(root: bv16, published: bool) {
    published && root != 0x140
  }

  // ----- Steps of the extraction loop

  /** On a path is: on the way to it, or the path itself. */
  lemma OnStep(p: Path)
    requires p != []
    ensures forall q :: On(q, p) <==> On(q, p[..|p| - 1]) || q == p
  {
    forall q
      ensures On(q, p) <==> On(q, p[..|p| - 1]) || q == p
    {
      if q <= p && |q| == |p| { assert q == p[..|q|] == p; }
    }
  }

  lemma NamesTold(members: seq<Member>, name: string)
    ensures name in NamesOf(members) <==> exists i :: 0 <= i < |members| && members[i].name == name
  {
  }

  lemma RepeatRefused(all: seq<Member>, i: nat)
    requires i < |all| && all[i].name in NamesOf(all[..i])
    ensures !DistinctNames(all)
  {
    NamesTold(all[..i], all[i].name);
    var j :| 0 <= j < i && all[..i][j].name == all[i].name;
    assert all[j].name == all[i].name;
  }

  lemma NothingYet()
    ensures Extractable([]) && Mirrors(map[], [])
    ensures NamesOf([]) == {} && ExecutablesOf([]) == {} && Total([]) == 0
  {
  }

  lemma NoParent(nodes: map<Path, Node>)
    ensures NoFileOn(nodes, []) && FoldersAdded(nodes, nodes, [])
  {
  }

  /** Why an archive is not extractable, as the loop finds out at member `i`. */
  lemma Refusals(all: seq<Member>, i: nat)
    requires i < |all|
    ensures i >= MAX_MEMBERS ==> !Extractable(all)
    ensures all[i].extraHeaders || all[i].kind.OtherMember? || all[i].sparse ==> !Extractable(all)
    ensures !SafeName(all[i].name) ==> !Extractable(all)
    ensures all[i].name in NamesOf(all[..i]) ==> !Extractable(all)
    ensures all[i].kind.RegularMember? && all[i].size > MAX_MEMBER_BYTES ==> !Extractable(all)
    ensures Total(all[..i + 1]) > MAX_EXTRACTED ==> !Extractable(all)
    ensures all[i].kind.RegularMember? && |all[i].data| != all[i].size ==> !Extractable(all)
    ensures !NoFileAbove(all) ==> !Extractable(all)
  {
    hide Total, NoFileAbove, DistinctNames, SafeName, NamesOf;
    assert all[i] in all;
    if all[i].name in NamesOf(all[..i]) { RepeatRefused(all, i); }
    TotalGrows(all, i + 1);
  }

  lemma SaneDirectory(m: Member)
    requires !m.extraHeaders && m.kind.DirectoryMember? && !m.sparse && SafeName(m.name)
    ensures Sane(m)
  {
  }

  lemma SaneFile(m: Member)
    requires !m.extraHeaders && m.kind.RegularMember? && !m.sparse && SafeName(m.name)
    requires m.size <= MAX_MEMBER_BYTES && |m.data| == m.size
    ensures Sane(m)
  {
  }

  /** A file on the way to a directory is a member above this one. */
  lemma FolderBlocked(all: seq<Member>, i: nat, before: map<Path, Node>, parts: Path)
    requires i < |all| && Mirrors(before, all[..i])
    requires parts <= all[i].Path() && !NoFileOn(before, parts)
    ensures !NoFileAbove(all)
  {
    var q :| q in before && On(q, parts) && !before[q].content.Folder?;
    assert FileWanted(all[..i], q);
    var m :| m in all[..i] && m.kind.RegularMember? && m.Path() == q;
    var j: nat :| j < i && all[j] == m;
    assert FileAbove(all, j, i);
  }

  /** A path already taken when its file is created lies at or above an earlier member. */
  lemma FileBlocked(all: seq<Member>, i: nat, before: map<Path, Node>, between: map<Path, Node>)
    requires i < |all| && Mirrors(before, all[..i]) && all[i].kind.RegularMember?
    requires NoFileOn(before, Parent(all[i])) && FoldersAdded(before, between, Parent(all[i]))
    requires all[i].Path() in between || !FolderAt(between, Parent(all[i]))
    ensures !NoFileAbove(all)
  {
    var parts := all[i].Path();
    assert FolderAt(between, Parent(all[i])) by {
      assert Parent(all[i]) != [] ==> On(Parent(all[i]), Parent(all[i]));
    }
    assert parts in before;
    var m :| m in all[..i] && On(parts, m.Path());
    var j: nat :| j < i && all[j] == m;
    assert FileAbove(all, i, j);
  }

  function Parent(m: Member): Path {
    m.Path()[..|m.Path()| - 1]
  }

  /** The bookkeeping of one more member. */
  lemma OneMore(done: seq<Member>, info: Member)
    ensures NamesOf(done + [info]) == NamesOf(done) + {info.name}
    ensures ExecutablesOf(done + [info]) == ExecutablesOf(done) + if info.Executable() then {info.name} else {}
    ensures Total(done + [info]) == Total(done) + if info.kind.RegularMember? then info.size else 0
  {
    var next := done + [info];
    assert next[..|next| - 1] == done;
    assert forall m :: m in next <==> m in done || m == info;
  }

  lemma WantedStep(done: seq<Member>, info: Member, p: Path)
    ensures Wanted(done + [info], p) <==> Wanted(done, p) || On(p, info.Path())
    ensures FileWanted(done + [info], p) <==> FileWanted(done, p) || (info.kind.RegularMember? && info.Path() == p)
  {
    assert forall m :: m in done + [info] <==> m in done || m == info;
  }

  lemma AboveStep(done: seq<Member>, info: Member)
    requires NoFileAbove(done)
    requires forall m :: m in done && m.kind.RegularMember? ==> !On(m.Path(), info.Path())
    requires info.kind.RegularMember? ==> !Wanted(done, info.Path())
    ensures NoFileAbove(done + [info])
  {
    hide On;
    var next := done + [info];
    forall i: nat, j: nat | i < |next| && j < |next|
      ensures !FileAbove(next, i, j)
    {
      if i < |done| && j < |done| { assert !FileAbove(done, i, j); }
    }
  }

  lemma NamesStep(done: seq<Member>, info: Member)
    requires DistinctNames(done) && info.name !in NamesOf(done)
    ensures DistinctNames(done + [info])
  {
    var next := done + [info];
    forall i, j | 0 <= i < j < |next|
      ensures next[i].name != next[j].name
    {
      if j == |done| { NamesTold(done, info.name); }
    }
  }

  /** A member that names something new, with no file above it and, if a file, nothing at or below it. */
  lemma ExtractableStep(done: seq<Member>, info: Member, before: map<Path, Node>)
    requires Extractable(done) && |done| < MAX_MEMBERS && Mirrors(before, done)
    requires Sane(info) && info.name !in NamesOf(done)
    requires Total(done + [info]) <= MAX_EXTRACTED
    requires NoFileOn(before, if info.kind.RegularMember? then Parent(info) else info.Path())
    requires info.kind.RegularMember? ==> info.Path() !in before
    ensures Extractable(done + [info])
  {
    hide Sane, Total, On, NoFileAbove;
    NamesStep(done, info);
    OnStep(info.Path());
    AboveStep(done, info);
  }

  /** The tree after one more member, told by what was added. */
  lemma MirrorsStep(done: seq<Member>, info: Member, before: map<Path, Node>, after: map<Path, Node>)
    requires Mirrors(before, done)
    requires forall p :: p in after <==> p in before || On(p, info.Path())
    requires forall p :: p in before ==> after[p] == before[p]
    requires info.kind.RegularMember? ==> info.Path() !in before
    requires forall p :: p in after && p !in before ==>
      after[p] == if info.kind.RegularMember? && p == info.Path() then NewFile(info.data) else NEW_FOLDER
    ensures Mirrors(after, done + [info])
  {
    assert On(info.Path(), info.Path());
    hide On;
    forall p
      ensures p in after <==> Wanted(done + [info], p)
      ensures p in after && !FileWanted(done + [info], p) ==> after[p] == NEW_FOLDER
    {
      WantedStep(done, info, p);
    }
  }

  lemma FolderFits(done: seq<Member>, info: Member, before: map<Path, Node>, after: map<Path, Node>)
    requires Extractable(done) && Mirrors(before, done) && |done| < MAX_MEMBERS
    requires Sane(info) && info.kind.DirectoryMember? && info.name !in NamesOf(done)
    requires NoFileOn(before, info.Path()) && FoldersAdded(before, after, info.Path())
    ensures Extractable(done + [info]) && Mirrors(after, done + [info])
  {
    hide Sane, Total, On, DistinctNames, NoFileAbove, NoFileOn, Mirrors, NamesOf, ExecutablesOf;
    OneMore(done, info);
    ExtractableStep(done, info, before);
    MirrorsStep(done, info, before, after);
  }

  lemma FileFits(done: seq<Member>, info: Member, before: map<Path, Node>, between: map<Path, Node>)
    requires Extractable(done) && Mirrors(before, done) && |done| < MAX_MEMBERS
    requires Sane(info) && info.kind.RegularMember? && info.name !in NamesOf(done)
    requires Total(done) + info.size <= MAX_EXTRACTED
    requires NoFileOn(before, Parent(info)) && FoldersAdded(before, between, Parent(info))
    requires info.Path() !in between
    ensures Extractable(done + [info]) && Mirrors(between[info.Path() := NewFile(info.data)], done + [info])
  {
    hide Sane, Total, On, DistinctNames, NoFileAbove, NoFileOn, Mirrors, Extractable, NamesOf, ExecutablesOf;
    OnStep(info.Path());
    OneMore(done, info);
    ExtractableStep(done, info, before);
    MirrorsStep(done, info, before, between[info.Path() := NewFile(info.data)]);
  }

  // ----- Sealing what was extracted

  lemma SealedPasses(
    members: seq<Member>, extracted: map<Path, Node>, sealed: map<Path, Node>, rewrites: Rewrites,
    executables: set<string>)
    requires Mirrors(extracted, members)
    requires sealed.Keys == extracted.Keys
    requires forall p :: p in sealed ==>
      sealed[p] == SealedNode(p, RewrittenNode(p, extracted[p], rewrites), executables)
    ensures forall p :: p in sealed ==> OwnAndSingle(sealed[p]) && ReusableNode(sealed[p])
  {
    forall p | p in sealed
      ensures OwnAndSingle(sealed[p]) && ReusableNode(sealed[p])
    {
      if FileWanted(members, p) {
        var m :| m in members && m.kind.RegularMember? && m.Path() == p;
        assert extracted[p] == NewFile(m.data);
      }
    }
  }

  /** The tree matches the profile exactly when the archive does, and holds the members' bytes. */
  lemma ContentIsMembers(
    members: seq<Member>, extracted: map<Path, Node>, sealed: map<Path, Node>, rewrites: Rewrites,
    executables: set<string>, profile: Profile)
    requires Mirrors(extracted, members) && sealed.Keys == extracted.Keys
    requires forall p :: p in sealed ==>
      sealed[p] == SealedNode(p, RewrittenNode(p, extracted[p], rewrites), executables)
    ensures Holds(members, profile) <==>
            && ContentMatches(sealed, profile)
            && profile.interpreter in sealed && sealed[profile.interpreter].content.Bytes?
    ensures forall p :: p in sealed <==> Wanted(members, p)
    ensures forall m :: m in members && m.kind.RegularMember? ==>
      m.Path() in sealed && sealed[m.Path()].content == Bytes(FinalBytes(m, rewrites))
  {
    forall p
      ensures p in sealed && sealed[p].content.Bytes? <==> FileWanted(members, p)
      ensures FolderAt(sealed, p) <==> p == [] || (Wanted(members, p) && !FileWanted(members, p))
    {
    }
  }

  /** Exactly the members marked executable are sealed so, and every folder can be entered. */
  lemma ModesAreMembers(
    members: seq<Member>, extracted: map<Path, Node>, sealed: map<Path, Node>, rewrites: Rewrites)
    requires Mirrors(extracted, members) && DistinctNames(members) && sealed.Keys == extracted.Keys
    requires forall p :: p in sealed ==>
      sealed[p] == SealedNode(p, RewrittenNode(p, extracted[p], rewrites), ExecutablesOf(members))
    ensures forall m :: m in members && m.kind.RegularMember? ==>
      m.Path() in sealed && sealed[m.Path()].mode == if m.mode & 0x40 != 0 then 0x140 else 0x100
    ensures forall p :: p in sealed && !FileWanted(members, p) ==> sealed[p].content.Folder? && sealed[p].mode == 0x140
  {
    forall m | m in members && m.kind.RegularMember?
      ensures m.Path() in sealed && sealed[m.Path()].mode == if m.mode & 0x40 != 0 then 0x140 else 0x100
    {
      JoinSplit(m.name);
      NamedOnce(members, m);
    }
  }

  lemma NamesDiffer(members: seq<Member>)
    requires Extractable(members)
    ensures DistinctNames(members)
  {
  }

  /** A member's name is among the executables exactly when that member is. */
  lemma NamedOnce(members: seq<Member>, m: Member)
    requires DistinctNames(members) && m in members
    ensures m.name in ExecutablesOf(members) <==> m.Executable()
  {
    if m.name in ExecutablesOf(members) {
      var other :| other in members && other.Executable() && other.name == m.name;
      var i :| 0 <= i < |members| && members[i] == m;
      var j :| 0 <= j < |members| && members[j] == other;
      assert !(i < j) && !(j < i);
    }
  }

  // ----- What extractability says

  lemma CountOfOne(ms: seq<Member>, i: int, j: int)
    requires 0 <= i < j < |ms| && ms[i] == ms[j]
    ensures multiset(ms)[ms[i]] >= 2
  {
    assert ms == ms[..j] + [ms[j]] + ms[j + 1..];
    assert ms[i] == ms[..j][i] && ms[i] in ms[..j];
  }

  lemma RepeatedTwice(ms: seq<Member>, m: Member)
    requires multiset(ms)[m] >= 2
    ensures exists i, j :: 0 <= i < j < |ms| && ms[i] == m && ms[j] == m
  {
    var i :| 0 <= i < |ms| && ms[i] == m;
    assert ms == ms[..i] + [m] + ms[i + 1..];
    if m in ms[..i] {
      var k :| 0 <= k < i && ms[k] == m;
      assert 0 <= k < i < |ms| && ms[k] == m && ms[i] == m;
    } else {
      assert m in ms[i + 1..];
      var k :| 0 <= k < |ms[i + 1..]| && ms[i + 1..][k] == m;
      assert 0 <= i < i + 1 + k < |ms| && ms[i] == m && ms[i + 1 + k] == m;
    }
  }

  lemma {:induction false} TotalOfPermutation(ms: seq<Member>, ns: seq<Member>)
    requires multiset(ms) == multiset(ns)
    ensures Total(ms) == Total(ns)
    decreases |ms|
  {
    hide *;
    if ms == [] {
      assert |ns| == |multiset(ns)| == 0;
    } else {
      var last := ms[|ms| - 1];
      var rest := ms[..|ms| - 1];
      assert last in multiset(ns);
      var i :| 0 <= i < |ns| && ns[i] == last;
      var others := ns[..i] + ns[i + 1..];
      WithoutOne(ns, i);
      WithoutOne(ms, |ms| - 1);
      assert rest + ms[|ms|..] == rest;
      TotalOfPermutation(rest, others);
      TotalWithout(ns, i);
      TotalOfLast(ms);
    }
  }

  lemma TotalOfLast(ms: seq<Member>)
    requires ms != []
    ensures
      var last := ms[|ms| - 1];
      Total(ms) == Total(ms[..|ms| - 1]) + if last.kind.RegularMember? then last.size else 0
  {
  }

  lemma WithoutOne(ns: seq<Member>, i: nat)
    requires i < |ns|
    ensures multiset(ns[..i] + ns[i + 1..]) == multiset(ns) - multiset{ns[i]}
  {
    assert ns == ns[..i] + [ns[i]] + ns[i + 1..];
  }

  lemma {:induction false} TotalWithout(ns: seq<Member>, i: nat)
    requires i < |ns|
    ensures Total(ns) == Total(ns[..i] + ns[i + 1..]) + if ns[i].kind.RegularMember? then ns[i].size else 0
    decreases |ns|
  {
    var rest := ns[..|ns| - 1];
    if i == |ns| - 1 {
      assert ns[..i] + ns[i + 1..] == rest;
    } else {
      var others := ns[..i] + ns[i + 1..];
      assert others[..|others| - 1] == rest[..i] + rest[i + 1..];
      TotalWithout(rest, i);
    }
  }

  /** Only the members matter: listing them in another order changes nothing. */
  lemma OrderIrrelevant(ms: seq<Member>, ns: seq<Member>)
    requires multiset(ms) == multiset(ns) && Extractable(ms)
    ensures Extractable(ns)
  {
    hide DistinctNames, NoFileAbove, Total, Sane;
    assert |ms| == |multiset(ms)| == |multiset(ns)| == |ns|;
    assert forall m :: m in ms <==> m in multiset(ms);
    assert forall m :: m in ns <==> m in multiset(ns);
    TotalOfPermutation(ms, ns);
    NamesOfPermutation(ms, ns);
    AboveOfPermutation(ms, ns);
  }

  /** Both orders lead to one and the same tree. */
  lemma SameTree(ms: seq<Member>, ns: seq<Member>, a: map<Path, Node>, b: map<Path, Node>)
    requires multiset(ms) == multiset(ns) && Mirrors(a, ms) && Mirrors(b, ns)
    ensures a == b
  {
    assert forall m :: m in ms <==> m in multiset(ms);
    assert forall m :: m in ns <==> m in multiset(ns);
    forall p
      ensures p in a <==> p in b
      ensures p in a ==> a[p] == b[p]
    {
      assert Wanted(ms, p) <==> Wanted(ns, p);
      if FileWanted(ms, p) {
        var m :| m in ms && m.kind.RegularMember? && m.Path() == p;
        assert m in ns;
      } else {
        assert !FileWanted(ns, p);
      }
    }
  }

  lemma NamesOfPermutation(ms: seq<Member>, ns: seq<Member>)
    requires multiset(ms) == multiset(ns) && DistinctNames(ms)
    ensures DistinctNames(ns)
  {
    forall i, j | 0 <= i < j < |ns|
      ensures ns[i].name != ns[j].name
    {
      assert ns[i] in multiset(ns) && ns[j] in multiset(ns);
      assert ns[i] in ms && ns[j] in ms;
      if ns[i] == ns[j] {
        CountOfOne(ns, i, j);
        RepeatedTwice(ms, ns[i]);
      }
    }
  }

  lemma AboveOfPermutation(ms: seq<Member>, ns: seq<Member>)
    requires multiset(ms) == multiset(ns) && DistinctNames(ns) && NoFileAbove(ms)
    ensures NoFileAbove(ns)
  {
    forall i: nat, j: nat | i < |ns| && j < |ns|
      ensures !FileAbove(ns, i, j)
    {
      if i != j {
        assert ns[i] in multiset(ms) && ns[j] in multiset(ms);
        var k: nat :| k < |ms| && ms[k] == ns[i];
        var l: nat :| l < |ms| && ms[l] == ns[j];
        assert !FileAbove(ms, k, l);
        assert ns[i].name != ns[j].name;
      }
    }
  }
}
