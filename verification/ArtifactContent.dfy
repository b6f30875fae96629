/** The one-pass check that the entries of an artifact archive form a consistent file tree. */
module ArtifactContent {

  import opened Prelude
  import opened Text
  import opened Sorting
  import opened ArchivePaths

  const MAX_ENTRIES: nat := 1000
  const MAX_UNCOMPRESSED_BYTES: nat := 50_000_000

  /** The file type recorded by a Unix archiver. */
  datatype UnixType = NotUnix | Untyped | Regular | Directory | Link | Special

  datatype Entry = Entry(name: string, encrypted: bool, unixType: UnixType, size: nat, compressed: nat)

  datatype ArchiveError =
    | TooManyEntries | BadPath(error: PathError) | Encrypted | SymbolicLink | NotRegular
    | Duplicate | FileIsAncestor | FileAndDirectory | TooLarge

  datatype FileEntry = FileEntry(path: string, size: nat, compressed: nat)

  datatype Inspection = Inspection(files: seq<FileEntry>, byPath: map<string, Entry>)

  /** Whether an entry is a file; directories have names that end in a slash. */
  function EntryKind(entry: Entry): Result<bool, ArchiveError> {
    if entry.encrypted then Err(Encrypted)
    else if entry.unixType.Link? then Err(SymbolicLink)
    else if entry.unixType.Special? then Err(NotRegular)
    else Ok(entry.name == "" || entry.name[|entry.name| - 1] != '/')
  }

  /** Which entries are refused, and which of the others are files. */
  lemma EntryKindExactly(entry: Entry)
    ensures EntryKind(entry).Err? <==> entry.encrypted || entry.unixType == Link || entry.unixType == Special
    ensures EntryKind(entry) == Err(Encrypted) <==> entry.encrypted
    ensures EntryKind(entry) == Err(SymbolicLink) <==> !entry.encrypted && entry.unixType == Link
    ensures EntryKind(entry) == Ok(false) <==>
            && !entry.encrypted && entry.unixType in {NotUnix, Untyped, Regular, Directory}
            && entry.name != "" && entry.name[|entry.name| - 1] == '/'
  {
  }

  // ----- What a consistent archive is, without any order -----

  predicate Readable(entry: Entry) {
    Normalize(entry.name).Ok? && EntryKind(entry).Ok?
  }

  /** The normalized path; of interest for readable entries only. */
  function PathOf(entry: Entry): string {
    match Normalize(entry.name)
    case Ok(path) => path
    case Err(_) => ""
  }

  predicate IsFile(entry: Entry) {
    EntryKind(entry) == Ok(true)
  }

  /** What the tree check sees of an entry. */
  datatype Node = Node(path: string, file: bool)

  /** Two entries can be in one tree: different paths, and no file above the other. */
  predicate Compatible(a: Node, b: Node) {
    && a.path != b.path
    && !(a.file && Ancestor(a.path, b.path))
    && !(b.file && Ancestor(b.path, a.path))
  }

  function NodeOf(entry: Entry): Node {
    Node(PathOf(entry), IsFile(entry))
  }

  function Nodes(entries: seq<Entry>): seq<Node> {
    Apply(NodeOf, entries)
  }

  lemma NodeAt(entries: seq<Entry>, i: nat)
    requires i < |entries|
    ensures |Nodes(entries)| == |entries| && Nodes(entries)[i] == NodeOf(entries[i])
  {
  }

  function Listing(entry: Entry): seq<FileEntry> {
    if IsFile(entry) then [FileEntry(PathOf(entry), entry.size, entry.compressed)] else []
  }

  function FilesOf(entries: seq<Entry>): seq<FileEntry> {
    FlatMap(Listing, entries)
  }

  function SizeOf(entry: Entry): nat {
    if IsFile(entry) then entry.size else 0
  }

  ghost predicate AllReadable(entries: seq<Entry>) {
    forall e :: e in entries ==> Readable(e)
  }

  ghost predicate Consistent(entries: seq<Entry>) {
    && |entries| <= MAX_ENTRIES
    && AllReadable(entries)
    && Pairwise(Nodes(entries), Compatible)
    && Total(SizeOf, entries) <= MAX_UNCOMPRESSED_BYTES
  }

  // ----- The tables of the one-pass check -----

  /** `explicit` maps the paths seen to whether they are files; `implied` holds the directories above them. */
  ghost predicate Describes(explicit: map<string, bool>, implied: set<string>, nodes: seq<Node>) {
    && (forall path, file :: (path in explicit && explicit[path] == file) <==> Node(path, file) in nodes)
    && (forall path :: path in implied <==> exists node :: node in nodes && Ancestor(path, node.path))
  }

  /** What the tables decide about one more entry. */
  predicate Fits(explicit: map<string, bool>, implied: set<string>, node: Node) {
    && node.path !in explicit
    && (forall parent :: parent in Parents(node.path) && parent in explicit ==> !explicit[parent])
    && !(node.file && node.path in implied)
  }

  lemma FitsExactly(explicit: map<string, bool>, implied: set<string>, nodes: seq<Node>, node: Node)
    requires Describes(explicit, implied, nodes)
    ensures Fits(explicit, implied, node) <==> AllRelated(node, nodes, Compatible)
  {
    if Fits(explicit, implied, node) {
      forall other | other in nodes ensures Compatible(node, other) {
        assert Node(other.path, other.file) in nodes;
      }
    }
    if !Fits(explicit, implied, node) {
      if node.path in explicit {
        assert Node(node.path, explicit[node.path]) in nodes;
      } else if parent :| parent in Parents(node.path) && parent in explicit && explicit[parent] {
        assert Node(parent, true) in nodes && Ancestor(parent, node.path);
      }
    }
  }

  function AncestorsOf(path: string): set<string> {
    set parent | parent in Parents(path)
  }

  lemma DescribesMore(explicit: map<string, bool>, implied: set<string>, nodes: seq<Node>, node: Node)
    requires Describes(explicit, implied, nodes) && node.path !in explicit
    ensures Describes(explicit[node.path := node.file], implied + AncestorsOf(node.path), nodes + [node])
  {
  }

  lemma PairwiseMore(nodes: seq<Node>, node: Node)
    ensures Pairwise(nodes + [node], Compatible) <==> Pairwise(nodes, Compatible) && AllRelated(node, nodes, Compatible)
  {
    assert Removed(nodes + [node], |nodes|) == nodes;
    PairwiseWithout(nodes + [node], |nodes|, Compatible);
  }

  ghost predicate Indexes(byPath: map<string, Entry>, entries: seq<Entry>) {
    forall path, e :: path in byPath && byPath[path] == e <==> e in entries && IsFile(e) && PathOf(e) == path
  }

  /** The tables of the check; `total` is the uncompressed size of the files. */
  datatype Tables = Tables(
    explicit: map<string, bool>,
    implied: set<string>,
    files: seq<FileEntry>,
    byPath: map<string, Entry>,
    total: nat)

  /** The tables after one more entry. */
  function Extended(t: Tables, entry: Entry): Tables {
    var path, file := PathOf(entry), IsFile(entry);
    Tables(t.explicit[path := file], t.implied + AncestorsOf(path), t.files + Listing(entry),
           if file then t.byPath[path := entry] else t.byPath, t.total + SizeOf(entry))
  }

  predicate Admits(t: Tables, entry: Entry) {
    && Readable(entry)
    && Fits(t.explicit, t.implied, NodeOf(entry))
    && (IsFile(entry) ==> t.total + entry.size <= MAX_UNCOMPRESSED_BYTES)
  }

  /** Everything the check knows after the entries so far. */
  ghost predicate Inspected(entries: seq<Entry>, t: Tables) {
    && AllReadable(entries)
    && Describes(t.explicit, t.implied, Nodes(entries)) && Pairwise(Nodes(entries), Compatible)
    && t.files == FilesOf(entries) && t.total == Total(SizeOf, entries) <= MAX_UNCOMPRESSED_BYTES
    && Indexes(t.byPath, entries)
  }

  lemma IndexesMore(byPath: map<string, Entry>, entries: seq<Entry>, entry: Entry,
                    explicit: map<string, bool>, implied: set<string>)
    requires Indexes(byPath, entries)
    requires Describes(explicit, implied, Nodes(entries)) && PathOf(entry) !in explicit
    ensures Indexes(if IsFile(entry) then byPath[PathOf(entry) := entry] else byPath, entries + [entry])
  {
    forall e | e in entries ensures PathOf(e) != PathOf(entry) {
      var i :| 0 <= i < |entries| && entries[i] == e;
      NodeAt(entries, i);
    }
  }

  /** The tables decide whether the entries stay consistent, and follow them if they do. */
  lemma OneMoreEntry(entries: seq<Entry>, t: Tables, entry: Entry)
    requires Inspected(entries, t) && |entries| < MAX_ENTRIES
    ensures Admits(t, entry) <==> Consistent(entries + [entry])
    ensures Admits(t, entry) ==> Inspected(entries + [entry], Extended(t, entry))
  {
    var longer, node := entries + [entry], NodeOf(entry);
    assert longer[|entries|] == entry;
    assert Nodes(longer) == Nodes(entries) + [node];
    FlatMapConcat(Listing, entries, [entry]);
    TotalAppend(SizeOf, entries, entry);
    FitsExactly(t.explicit, t.implied, Nodes(entries), node);
    PairwiseMore(Nodes(entries), node);
    if Admits(t, entry) {
      DescribesMore(t.explicit, t.implied, Nodes(entries), node);
      IndexesMore(t.byPath, entries, entry, t.explicit, t.implied);
    }
  }

  lemma {:induction false} TotalOfPrefix(entries: seq<Entry>, n: nat)
    requires n <= |entries|
    ensures Total(SizeOf, entries[..n]) <= Total(SizeOf, entries)
  {
    if n > 0 {
      TotalOfPrefix(entries[1..], n - 1);
      assert entries[..n][1..] == entries[1..][..n - 1];
    }
  }

  lemma ConsistentPrefix(entries: seq<Entry>, n: nat)
    requires n <= |entries| && Consistent(entries)
    ensures Consistent(entries[..n])
  {
    assert Nodes(entries[..n]) == Nodes(entries)[..n];
    TotalOfPrefix(entries, n);
  }

  /** What the first refused entry is refused for, in terms of the entries before it. */
  ghost predicate RefusedFor(before: seq<Entry>, entry: Entry, error: ArchiveError) {
    if Normalize(entry.name).Err? then error == BadPath(Normalize(entry.name).error)
    else if EntryKind(entry).Err? then error == EntryKind(entry).error
    else if exists e :: e in before && PathOf(e) == PathOf(entry) then error == Duplicate
    else if exists e :: e in before && IsFile(e) && Ancestor(PathOf(e), PathOf(entry)) then error == FileIsAncestor
    else if IsFile(entry) && exists e :: e in before && Ancestor(PathOf(entry), PathOf(e)) then error == FileAndDirectory
    else error == TooLarge && IsFile(entry) && Total(SizeOf, before) + entry.size > 50_000_000
  }

  /** The same in terms of the tables. */
  ghost predicate RefusedBy(t: Tables, entry: Entry, error: ArchiveError) {
    if Normalize(entry.name).Err? then error == BadPath(Normalize(entry.name).error)
    else if EntryKind(entry).Err? then error == EntryKind(entry).error
    else if PathOf(entry) in t.explicit then error == Duplicate
    else if exists parent :: parent in Parents(PathOf(entry)) && parent in t.explicit && t.explicit[parent] then
      error == FileIsAncestor
    else if IsFile(entry) && PathOf(entry) in t.implied then error == FileAndDirectory
    else error == TooLarge && IsFile(entry) && t.total + entry.size > MAX_UNCOMPRESSED_BYTES
  }

  lemma NodeMembers(entries: seq<Entry>, node: Node)
    ensures node in Nodes(entries) <==> exists e :: e in entries && NodeOf(e) == node
  {
    if e :| e in entries && NodeOf(e) == node {
      var i :| 0 <= i < |entries| && entries[i] == e;
      NodeAt(entries, i);
    }
  }

  lemma TablesExplain(entries: seq<Entry>, t: Tables, entry: Entry, error: ArchiveError)
    requires Inspected(entries, t) && RefusedBy(t, entry, error)
    ensures RefusedFor(entries, entry, error)
  {
    forall node ensures node in Nodes(entries) <==> exists e :: e in entries && NodeOf(e) == node {
      NodeMembers(entries, node);
    }
    var path := PathOf(entry);
    if path in t.explicit {
      assert Node(path, t.explicit[path]) in Nodes(entries);
    } else if parent :| parent in Parents(path) && parent in t.explicit && t.explicit[parent] {
      assert Node(parent, true) in Nodes(entries);
    }
    forall e | e in entries
      ensures PathOf(e) in t.explicit && t.explicit[PathOf(e)] == IsFile(e)
      ensures Ancestor(path, PathOf(e)) ==> path in t.implied
    {
      assert NodeOf(e) in Nodes(entries);
    }
  }

  /** The directories above one entry, unless one of them is a file. */
  method NoteParents(path: string, explicit: map<string, bool>, implied: set<string>)
    returns (conflict: bool, implied': set<string>)
    ensures conflict <==> exists parent :: parent in Parents(path) && parent in explicit && explicit[parent]
    ensures !conflict ==> implied' == implied + AncestorsOf(path)
  {
    var parents := Parents(path);
    implied' := implied;
    var k := |parents|;
    while k > 0
      invariant 0 <= k <= |parents|
      invariant forall j :: k <= j < |parents| ==> !(parents[j] in explicit && explicit[parents[j]])
      invariant implied' == implied + set j | k <= j < |parents| :: parents[j]
    {
      k := k - 1;
      if parents[k] in explicit && explicit[parents[k]] {
        return true, implied;
      }
      implied' := implied' + {parents[k]};
    }
    conflict := false;
  }

  function PathOrder(a: FileEntry, b: FileEntry): bool {
    StringLeq(a.path, b.path)
  }

  /** No path is above itself, so noting the parents of an entry first does not condemn it. */
  lemma OwnParent(path: string)
    ensures !Ancestor(path, path)
  {
    AncestorIsComponentPrefix(path, path);
  }

  /** The checks of one entry, against the tables of the entries before it. */
  method InspectEntry(t: Tables, entry: Entry) returns (r: Result<Tables, ArchiveError>)
    ensures r.Ok? <==> Admits(t, entry)
    ensures r.Ok? ==> r.value == Extended(t, entry)
    ensures r.Err? ==> RefusedBy(t, entry, r.error)
  {
    var path := NormalizeArchivePath(entry.name);
    if path.Err? {
      return Err(BadPath(path.error));
    }
    var kind := EntryKind(entry);
    if kind.Err? {
      return Err(kind.error);
    }
    if path.value in t.explicit {
      return Err(Duplicate);
    }
    var conflict, implied := NoteParents(path.value, t.explicit, t.implied);
    if conflict {
      return Err(FileIsAncestor);
    }
    if kind.value && path.value in implied {
      OwnParent(path.value);
      return Err(FileAndDirectory);
    }
    var explicit := t.explicit[path.value := kind.value];
    if !kind.value {
      return Ok(t.(explicit := explicit, implied := implied));
    }
    if t.total + entry.size > MAX_UNCOMPRESSED_BYTES {
      return Err(TooLarge);
    }
    r := Ok(Tables(explicit, implied, t.files + [FileEntry(path.value, entry.size, entry.compressed)],
                   t.byPath[path.value := entry], t.total + entry.size));
  }

  lemma EntryDecides(entries: seq<Entry>, i: nat, t: Tables)
    requires i < |entries| <= MAX_ENTRIES && Inspected(entries[..i], t)
    ensures Admits(t, entries[i]) ==> Inspected(entries[..i + 1], Extended(t, entries[i]))
    ensures !Admits(t, entries[i]) ==> !Consistent(entries)
  {
    OneMoreEntry(entries[..i], t, entries[i]);
    assert entries[..i + 1] == entries[..i] + [entries[i]];
    if Consistent(entries) {
      ConsistentPrefix(entries, i + 1);
    }
  }

  /** The one-pass check of an archive's directory. */
  method InspectArchive(entries: seq<Entry>) returns (r: Result<Inspection, ArchiveError>)
    ensures r.Ok? <==> Consistent(entries)
    ensures r.Ok? ==> r.value.files == Sort(FilesOf(entries), PathOrder) && Indexes(r.value.byPath, entries)
    ensures r == Err(TooManyEntries) <==> |entries| > 1000
    ensures r.Err? && r.error != TooManyEntries ==>
              exists k :: 0 <= k < |entries| && Consistent(entries[..k]) && RefusedFor(entries[..k], entries[k], r.error)
  {
    if |entries| > MAX_ENTRIES {
      return Err(TooManyEntries);
    }
    var t := Tables(map[], {}, [], map[], 0);
    for i := 0 to |entries|
      invariant Inspected(entries[..i], t)
    {
      EntryDecides(entries, i, t);
      var next := InspectEntry(t, entries[i]);
      if next.Err? {
        TablesExplain(entries[..i], t, entries[i], next.error);
        return Err(next.error);
      }
      t := next.value;
    }
    assert entries[..|entries|] == entries;
    r := Ok(Inspection(Sort(t.files, PathOrder), t.byPath));
  }

  // ----- The order of the entries does not matter -----

  /** A listed file is one of the file entries, and the other way around. */
  lemma {:induction false} ListedFiles(entries: seq<Entry>, f: FileEntry)
    ensures f in FilesOf(entries) <==> exists e :: e in entries && f in Listing(e)
  {
    if entries != [] {
      ListedFiles(entries[1..], f);
      assert entries == [entries[0]] + entries[1..];
    }
  }

  lemma PathOrderIsTotal()
    ensures TotalPreorder(PathOrder)
  {
    forall a: FileEntry, b: FileEntry, c: FileEntry
      ensures PathOrder(a, b) || PathOrder(b, a)
      ensures PathOrder(a, b) && PathOrder(b, c) ==> PathOrder(a, c)
    {
      StringOrder(a.path, b.path, c.path);
    }
  }

  lemma SamePathSameEntry(entries: seq<Entry>, e: Entry, e': Entry)
    requires Pairwise(Nodes(entries), Compatible) && e in entries && e' in entries && PathOf(e) == PathOf(e')
    ensures e == e'
  {
    var i :| 0 <= i < |entries| && entries[i] == e;
    var j :| 0 <= j < |entries| && entries[j] == e';
    NodeAt(entries, i);
    NodeAt(entries, j);
  }

  lemma FilesAreUntied(entries: seq<Entry>)
    requires Pairwise(Nodes(entries), Compatible)
    ensures Untied(FilesOf(entries), PathOrder)
  {
    forall a, b | a in FilesOf(entries) && b in FilesOf(entries) && PathOrder(a, b) && PathOrder(b, a)
      ensures a == b
    {
      StringOrder(a.path, b.path, b.path);
      ListedFiles(entries, a);
      ListedFiles(entries, b);
      var e :| e in entries && a in Listing(e);
      var e' :| e' in entries && b in Listing(e');
      SamePathSameEntry(entries, e, e');
    }
  }

  /** Reordering the entries of an archive changes neither whether it is accepted nor what is listed. */
  lemma InspectionForgetsOrder(entries: seq<Entry>, entries': seq<Entry>)
    requires multiset(entries) == multiset(entries')
    ensures Consistent(entries) <==> Consistent(entries')
    ensures Consistent(entries) ==> Sort(FilesOf(entries), PathOrder) == Sort(FilesOf(entries'), PathOrder)
  {
    assert |multiset(entries)| == |multiset(entries')|;
    assert forall e :: e in entries <==> e in multiset(entries);
    assert forall e :: e in entries' <==> e in multiset(entries');
    ApplyForgetsOrder(NodeOf, entries, entries');
    PairwiseForgetsOrder(Nodes(entries), Nodes(entries'), Compatible);
    TotalForgetsOrder(SizeOf, entries, entries');
    if Consistent(entries) {
      FilesAreUntied(entries);
      PathOrderIsTotal();
      FlatMapForgetsOrder(Listing, entries, entries');
      SortForgetsOrder(FilesOf(entries), FilesOf(entries'), PathOrder);
    }
  }

  /** The index has exactly the listed files as its keys, and leads each back to its own entry. */
  lemma IndexIsExact(entries: seq<Entry>, byPath: map<string, Entry>, path: string)
    requires Indexes(byPath, entries)
    ensures path in byPath <==> exists f :: f in FilesOf(entries) && f.path == path
    ensures path in byPath ==> byPath[path] in entries && PathOf(byPath[path]) == path
  {
    if path in byPath {
      var e := byPath[path];
      assert e in entries && IsFile(e) && PathOf(e) == path;
      var f := FileEntry(path, e.size, e.compressed);
      assert f in Listing(e);
      ListedFiles(entries, f);
    }
    if f :| f in FilesOf(entries) && f.path == path {
      ListedFiles(entries, f);
      var e :| e in entries && f in Listing(e);
      assert IsFile(e) && PathOf(e) == path;
    }
  }

  // ----- What the listing says -----

  function FileSize(f: FileEntry): nat {
    f.size
  }

  lemma {:induction false} ListedBytes(entries: seq<Entry>)
    ensures Total(FileSize, FilesOf(entries)) == Total(SizeOf, entries)
  {
    if entries != [] {
      ListedBytes(entries[1..]);
      if IsFile(entries[0]) {
        assert FilesOf(entries)[1..] == FilesOf(entries[1..]);
      } else {
        assert FilesOf(entries) == FilesOf(entries[1..]);
      }
    }
  }

  predicate DifferentPaths(a: FileEntry, b: FileEntry) {
    a.path != b.path
  }

  lemma {:induction false} ListedCount(entries: seq<Entry>)
    ensures |FilesOf(entries)| <= |entries|
  {
    if entries != [] {
      ListedCount(entries[1..]);
    }
  }

  lemma {:induction false} ListedPathsDiffer(entries: seq<Entry>)
    requires Pairwise(Nodes(entries), Compatible)
    ensures Pairwise(FilesOf(entries), DifferentPaths)
  {
    if entries != [] {
      var rest := entries[1..];
      assert Nodes(rest) == Nodes(entries)[1..];
      ListedPathsDiffer(rest);
      if IsFile(entries[0]) {
        var f := Listing(entries[0])[0];
        assert FilesOf(entries)[1..] == FilesOf(rest);
        forall g | g in FilesOf(rest) ensures DifferentPaths(f, g) {
          ListedFiles(rest, g);
          var e :| e in rest && g in Listing(e);
          var i :| 0 <= i < |rest| && rest[i] == e;
          NodeAt(rest, i);
          NodeAt(entries, 0);
          assert Compatible(Nodes(entries)[0], Nodes(entries)[i + 1]);
        }
        PairwiseHead(FilesOf(entries), DifferentPaths);
      } else {
        assert FilesOf(entries) == FilesOf(rest);
      }
    }
  }

  /** A listed file is an entry that is no directory, under its normalized path and with its own sizes. */
  predicate Lists(entry: Entry, f: FileEntry) {
    && !(entry.name != "" && entry.name[|entry.name| - 1] == '/')
    && Normalize(entry.name) == Ok(f.path) && entry.size == f.size && entry.compressed == f.compressed
  }

  /**
   * The listing of an accepted archive has exactly its files, in strictly ascending order of their
   * paths; there are at most 1000 entries, and the files hold at most fifty million bytes.
   */
  lemma ListingExactly(entries: seq<Entry>, f: FileEntry)
    requires Consistent(entries)
    ensures var files := Sort(FilesOf(entries), PathOrder);
            && (f in files <==> exists e :: e in entries && Lists(e, f))
            && (forall i, j :: 0 <= i < j < |files| ==>
                  files[i].path != files[j].path && NoLater(files[i].path, files[j].path))
            && |files| <= |entries| <= 1000 && Total(FileSize, files) <= 50_000_000
  {
    var files := Sort(FilesOf(entries), PathOrder);
    PathOrderIsTotal();
    SortSorts(FilesOf(entries), PathOrder);
    ListedFiles(entries, f);
    forall e | e in entries ensures f in Listing(e) <==> Lists(e, f) {
      assert Readable(e);
    }
    TotalForgetsOrder(FileSize, FilesOf(entries), files);
    ListedBytes(entries);
    ListedCount(entries);
    ListedPathsDiffer(entries);
    PairwiseForgetsOrder(FilesOf(entries), files, DifferentPaths);
    forall i, j | 0 <= i < j < |files| ensures NoLater(files[i].path, files[j].path) && files[i].path != files[j].path {
      assert PathOrder(files[i], files[j]) && DifferentPaths(files[i], files[j]);
      StringOrderMeaning(files[i].path, files[j].path);
    }
  }
}
