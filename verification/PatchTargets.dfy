/** Resolving patch targets in an immutable Git snapshot, with one tree cache shared by all patches. */
module PatchTargets {
  import opened Prelude
  import opened Utf8
  import opened Sorting
  import opened PatchWrites

  datatype EntryKind = BlobEntry | TreeEntry | OtherEntry

  datatype EntrySize = Unsized | Sized(bytes: nat) | BadSize

  /** A tree entry; `sha` is absent when GitHub returned no valid object identity. */
  datatype Entry = Entry(path: string, kind: EntryKind, mode: string, sha: Option<string>, size: EntrySize)

  /** A reply to a tree request: malformed or truncated, or the complete entries. */
  datatype TreeReply = NoTree | Tree(entries: seq<Entry>)

  datatype TargetError =
    | TreeUnavailable | Missing | AmbiguousEntry | NoIdentity | NotADirectory | NotABlob | BadMode | InvalidSize

  datatype Target = Target(blobSha: string, mode: string, size: Option<nat>)

  function Matches(entries: seq<Entry>, component: string): seq<Entry> {
    if entries == [] then []
    else (if entries[0].path == component then [entries[0]] else []) + Matches(entries[1..], component)
  }

  /** The entry one path component names in one tree. */
  function Lookup(entries: seq<Entry>, component: string): Result<Entry, TargetError> {
    var matches := Matches(entries, component);
    if matches == [] then Err(Missing)
    else if |matches| != 1 then Err(AmbiguousEntry)
    else if matches[0].sha.None? then Err(NoIdentity)
    else Ok(matches[0])
  }

  function FinalTarget(entry: Entry): Result<Target, TargetError>
    requires entry.sha.Some?
  {
    if entry.kind != BlobEntry then Err(NotABlob)
    else if entry.mode != "100644" && entry.mode != "100755" then Err(BadMode)
    else if entry.size == BadSize then Err(InvalidSize)
    else Ok(Target(entry.sha.value, entry.mode, if entry.size.Sized? then Some(entry.size.bytes) else None))
  }

  predicate IsDirectory(entry: Entry) { entry.kind == TreeEntry && entry.mode == "040000" }

  /** The uncached walk: what a path names in the snapshot. */
  function Walk(store: string -> TreeReply, treeSha: string, components: seq<string>): Result<Target, TargetError>
    requires components != []
    decreases |components|
  {
    match store(treeSha)
    case NoTree => Err(TreeUnavailable)
    case Tree(entries) =>
      match Lookup(entries, components[0])
      case Err(e) => Err(e)
      case Ok(entry) =>
        if |components| == 1 then FinalTarget(entry)
        else if !IsDirectory(entry) then Err(NotADirectory)
        else Walk(store, entry.sha.value, components[1..])
  }

  // ----- What a walk finds -----

  /** The only entry of a tree with this name. */
  ghost predicate OnlyEntry(entries: seq<Entry>, component: string, entry: Entry) {
    exists i :: 0 <= i < |entries| && entries[i] == entry && entry.path == component
                && forall j :: 0 <= j < |entries| && entries[j].path == component ==> j == i
  }

  /** The tree in which the k-th component is looked up. */
  function TreeAt(treeSha: string, chain: seq<Entry>, k: nat): Option<string>
    requires k <= |chain|
  {
    if k == 0 then Some(treeSha) else chain[k - 1].sha
  }

  ghost predicate LinkAt(store: string -> TreeReply, treeSha: string, components: seq<string>, chain: seq<Entry>, k: nat)
    requires k < |chain| == |components|
  {
    && TreeAt(treeSha, chain, k).Some?
    && var tree := store(TreeAt(treeSha, chain, k).value);
       tree.Tree? && OnlyEntry(tree.entries, components[k], chain[k])
  }

  /** One entry for each component: the only one of its name in its tree, leading to the next tree. */
  ghost predicate PathChain(store: string -> TreeReply, treeSha: string, components: seq<string>, chain: seq<Entry>) {
    && |chain| == |components|
    && (forall k :: 0 <= k < |chain| ==> chain[k].sha.Some?)
    && (forall k :: 0 <= k < |chain| ==> LinkAt(store, treeSha, components, chain, k))
    && (forall k :: 0 <= k < |chain| - 1 ==> chain[k].kind == TreeEntry && chain[k].mode == "040000")
  }

  /** A regular or executable file with a usable size, and what is known of it. */
  predicate IsFile(entry: Entry, target: Target) {
    && entry.kind == BlobEntry && (entry.mode == "100644" || entry.mode == "100755")
    && entry.sha == Some(target.blobSha) && entry.mode == target.mode
    && match entry.size
       case Unsized => target.size == None
       case Sized(bytes) => target.size == Some(bytes)
       case BadSize => false
  }

  lemma {:induction false} MatchMembers(entries: seq<Entry>, component: string, entry: Entry)
    ensures entry in Matches(entries, component) <==> entry in entries && entry.path == component
  {
    if entries != [] {
      MatchMembers(entries[1..], component, entry);
      assert entries == [entries[0]] + entries[1..];
    }
  }

  lemma NoMatches(entries: seq<Entry>, component: string)
    ensures Matches(entries, component) == [] <==>
            forall j :: 0 <= j < |entries| ==> entries[j].path != component
  {
    var matches := Matches(entries, component);
    if matches != [] {
      MatchMembers(entries, component, matches[0]);
    }
    forall j | 0 <= j < |entries| && entries[j].path == component ensures matches != [] {
      MatchMembers(entries, component, entries[j]);
    }
  }

  lemma OnlyFirst(entries: seq<Entry>, component: string, entry: Entry)
    requires entries != [] && entries[0].path == component
    ensures OnlyEntry(entries, component, entry) <==>
            entry == entries[0] && forall j :: 0 <= j < |entries[1..]| ==> entries[1..][j].path != component
  {
    var rest := entries[1..];
    assert forall j :: 1 <= j < |entries| ==> entries[j] == rest[j - 1];
    assert forall j :: 0 <= j < |rest| ==> rest[j] == entries[j + 1];
  }

  lemma OnlyLater(entries: seq<Entry>, component: string, entry: Entry)
    requires entries != [] && entries[0].path != component
    ensures OnlyEntry(entries, component, entry) <==> OnlyEntry(entries[1..], component, entry)
  {
    var rest := entries[1..];
    if i :| 0 <= i < |entries| && entries[i] == entry && entry.path == component
            && forall j :: 0 <= j < |entries| && entries[j].path == component ==> j == i {
      assert rest[i - 1] == entry;
      assert forall j :: 0 <= j < |rest| && rest[j].path == component ==> entries[j + 1].path == component;
    }
    if i :| 0 <= i < |rest| && rest[i] == entry && entry.path == component
            && forall j :: 0 <= j < |rest| && rest[j].path == component ==> j == i {
      assert entries[i + 1] == entry;
      assert forall j :: 0 < j < |entries| && entries[j].path == component ==> rest[j - 1].path == component;
    }
  }

  lemma {:induction false} OneMatch(entries: seq<Entry>, component: string, entry: Entry)
    ensures Matches(entries, component) == [entry] <==> OnlyEntry(entries, component, entry)
  {
    if entries != [] {
      var rest := entries[1..];
      assert forall j :: 0 <= j < |rest| ==> rest[j] == entries[j + 1];
      if entries[0].path == component {
        NoMatches(rest, component);
        OnlyFirst(entries, component, entry);
        var more := Matches(rest, component);
        assert [entries[0]] + more == [entry] <==> entries[0] == entry && more == [] by {
          assert ([entries[0]] + more)[0] == entries[0] && |[entries[0]] + more| == 1 + |more|;
        }
      } else {
        OneMatch(rest, component, entry);
        OnlyLater(entries, component, entry);
      }
    }
  }

  lemma LookupExactly(entries: seq<Entry>, component: string, entry: Entry)
    ensures Lookup(entries, component) == Ok(entry) <==> OnlyEntry(entries, component, entry) && entry.sha.Some?
  {
    OneMatch(entries, component, entry);
    var matches := Matches(entries, component);
    if |matches| == 1 {
      assert matches == [matches[0]];
    }
  }

  lemma FinalTargetExactly(entry: Entry, target: Target)
    requires entry.sha.Some?
    ensures FinalTarget(entry) == Ok(target) <==> IsFile(entry, target)
  {
  }

  lemma LinkMoves(store: string -> TreeReply, treeSha: string, components: seq<string>, chain: seq<Entry>, k: nat)
    requires 0 < k < |chain| == |components| && chain[0].sha.Some?
    ensures LinkAt(store, treeSha, components, chain, k) <==>
            LinkAt(store, chain[0].sha.value, components[1..], chain[1..], k - 1)
  {
    assert TreeAt(chain[0].sha.value, chain[1..], k - 1) == TreeAt(treeSha, chain, k);
  }

  lemma PathHead(store: string -> TreeReply, treeSha: string, components: seq<string>, chain: seq<Entry>)
    requires |components| > 1 && |chain| == |components| && chain[0].sha.Some?
    ensures PathChain(store, treeSha, components, chain) <==>
            && store(treeSha).Tree? && OnlyEntry(store(treeSha).entries, components[0], chain[0])
            && chain[0].kind == TreeEntry && chain[0].mode == "040000"
            && PathChain(store, chain[0].sha.value, components[1..], chain[1..])
  {
    var rest := chain[1..];
    assert forall k :: 0 <= k < |rest| ==> rest[k] == chain[k + 1];
    assert LinkAt(store, treeSha, components, chain, 0) <==>
           store(treeSha).Tree? && OnlyEntry(store(treeSha).entries, components[0], chain[0]);
    if PathChain(store, treeSha, components, chain) {
      forall k | 0 <= k < |rest| ensures LinkAt(store, chain[0].sha.value, components[1..], rest, k) {
        LinkMoves(store, treeSha, components, chain, k + 1);
      }
    }
    if PathChain(store, chain[0].sha.value, components[1..], rest) && LinkAt(store, treeSha, components, chain, 0) {
      forall k | 0 <= k < |chain| ensures LinkAt(store, treeSha, components, chain, k) && chain[k].sha.Some? {
        if k > 0 {
          LinkMoves(store, treeSha, components, chain, k);
          assert chain[k] == rest[k - 1];
        }
      }
      forall k | 1 <= k < |chain| - 1 ensures chain[k].kind == TreeEntry && chain[k].mode == "040000" {
        assert chain[k] == rest[k - 1];
      }
    }
  }

  lemma {:induction false} WalkHasChain(store: string -> TreeReply, treeSha: string, components: seq<string>)
    returns (chain: seq<Entry>)
    requires components != [] && Walk(store, treeSha, components).Ok?
    ensures PathChain(store, treeSha, components, chain)
    ensures IsFile(chain[|chain| - 1], Walk(store, treeSha, components).value)
    decreases |components|
  {
    var entry := Lookup(store(treeSha).entries, components[0]).value;
    LookupExactly(store(treeSha).entries, components[0], entry);
    if |components| == 1 {
      chain := [entry];
      FinalTargetExactly(entry, Walk(store, treeSha, components).value);
    } else {
      var rest := WalkHasChain(store, entry.sha.value, components[1..]);
      chain := [entry] + rest;
      assert chain[1..] == rest;
      PathHead(store, treeSha, components, chain);
    }
  }

  lemma {:induction false} ChainIsWalked(store: string -> TreeReply, treeSha: string, components: seq<string>,
                                         chain: seq<Entry>, target: Target)
    requires components != [] && PathChain(store, treeSha, components, chain)
    requires IsFile(chain[|chain| - 1], target)
    ensures Walk(store, treeSha, components) == Ok(target)
    decreases |components|
  {
    assert LinkAt(store, treeSha, components, chain, 0);
    LookupExactly(store(treeSha).entries, components[0], chain[0]);
    if |components| == 1 {
      FinalTargetExactly(chain[0], target);
    } else {
      PathHead(store, treeSha, components, chain);
      ChainIsWalked(store, chain[0].sha.value, components[1..], chain[1..], target);
    }
  }

  /**
   * A path names a file exactly if a chain of trees leads to it: in each tree one entry alone has
   * the component's name and carries an identity; all but the last are directories that lead to
   * the next tree; and the last is a regular or executable file, whose own identity, mode and
   * size are what is found.
   */
  lemma WalkFindsExactly(store: string -> TreeReply, treeSha: string, components: seq<string>, target: Target)
    requires components != []
    ensures Walk(store, treeSha, components) == Ok(target) <==>
            exists chain :: PathChain(store, treeSha, components, chain) && IsFile(chain[|chain| - 1], target)
  {
    if Walk(store, treeSha, components) == Ok(target) {
      var chain := WalkHasChain(store, treeSha, components);
    }
    if chain :| PathChain(store, treeSha, components, chain) && IsFile(chain[|chain| - 1], target) {
      ChainIsWalked(store, treeSha, components, chain, target);
    }
  }

  /** Why a walk fails in the first tree that it reads. */
  ghost predicate FailsHere(tree: TreeReply, component: string, final: bool, error: TargetError) {
    if tree.NoTree? then error == TreeUnavailable
    else
      match error
      case TreeUnavailable => false
      case Missing => forall j :: 0 <= j < |tree.entries| ==> tree.entries[j].path != component
      case AmbiguousEntry =>
        exists i, j :: 0 <= i < j < |tree.entries| && tree.entries[i].path == component && tree.entries[j].path == component
      case _ =>
        exists entry :: OnlyEntry(tree.entries, component, entry) &&
          if entry.sha.None? then error == NoIdentity
          else if !final then error == NotADirectory && !(entry.kind == TreeEntry && entry.mode == "040000")
          else if entry.kind != BlobEntry then error == NotABlob
          else if entry.mode !in {"100644", "100755"} then error == BadMode
          else error == InvalidSize && entry.size == BadSize
  }

  lemma {:induction false} TwoMatches(entries: seq<Entry>, component: string)
    ensures |Matches(entries, component)| > 1 <==>
            exists i, j :: 0 <= i < j < |entries| && entries[i].path == component && entries[j].path == component
  {
    if entries != [] {
      var rest := entries[1..];
      assert forall j :: 0 <= j < |rest| ==> rest[j] == entries[j + 1];
      TwoMatches(rest, component);
      NoMatches(rest, component);
      if i, j :| 0 <= i < j < |entries| && entries[i].path == component && entries[j].path == component {
        assert rest[j - 1].path == component;
        if i > 0 {
          assert rest[i - 1].path == component;
        }
      }
      if |Matches(rest, component)| > 1 {
        var i, j :| 0 <= i < j < |rest| && rest[i].path == component && rest[j].path == component;
        assert entries[i + 1].path == component && entries[j + 1].path == component;
      } else if entries[0].path == component && Matches(rest, component) != [] {
        var j :| 0 <= j < |rest| && rest[j].path == component;
        assert entries[j + 1].path == component;
      }
    }
  }

  lemma FirstStepFails(entries: seq<Entry>, component: string, final: bool, error: TargetError)
    ensures FailsHere(Tree(entries), component, final, error) <==>
            match Lookup(entries, component)
            case Err(reason) => reason == error
            case Ok(entry) =>
              if final then FinalTarget(entry) == Err(error) else !IsDirectory(entry) && error == NotADirectory
  {
    var matches := Matches(entries, component);
    NoMatches(entries, component);
    TwoMatches(entries, component);
    if |matches| == 1 {
      assert matches == [matches[0]];
    }
    forall entry ensures matches == [entry] <==> OnlyEntry(entries, component, entry) {
      OneMatch(entries, component, entry);
    }
  }

  /** A walk fails exactly for what is wrong in its first tree, or, if that leads to a directory, for what
      is wrong further on. */
  lemma WalkFailsExactly(store: string -> TreeReply, treeSha: string, components: seq<string>, error: TargetError)
    requires components != []
    ensures Walk(store, treeSha, components) == Err(error) <==>
            || FailsHere(store(treeSha), components[0], |components| == 1, error)
            || (|components| > 1 && store(treeSha).Tree? &&
                  exists entry :: && OnlyEntry(store(treeSha).entries, components[0], entry) && entry.sha.Some?
                                  && entry.kind == TreeEntry && entry.mode == "040000"
                                  && Walk(store, entry.sha.value, components[1..]) == Err(error))
  {
    if store(treeSha).Tree? {
      var entries := store(treeSha).entries;
      FirstStepFails(entries, components[0], |components| == 1, error);
      forall entry
        ensures Lookup(entries, components[0]) == Ok(entry) <==> OnlyEntry(entries, components[0], entry) && entry.sha.Some?
      {
        LookupExactly(entries, components[0], entry);
      }
    }
  }

  /** The shared tree cache. `requests` records every tree request sent. */
  class TreeCache {
    const store: string -> TreeReply
    var cache: map<string, seq<Entry>>
    ghost var requests: seq<string>

    /** The cache only holds what GitHub answered, and no tree in it was asked for twice. */
    ghost predicate Valid()
      reads this
    {
      && (forall sha :: sha in cache ==> store(sha) == Tree(cache[sha]))
      && (forall sha :: sha in cache ==> sha in requests)
      && (forall sha :: sha in requests && store(sha).Tree? ==> sha in cache)
      && forall i, j :: 0 <= i < j < |requests| && requests[i] == requests[j] ==> store(requests[i]).NoTree?
    }

    constructor (store: string -> TreeReply)
      ensures Valid() && this.store == store && cache == map[] && requests == []
    {
      this.store := store;
      cache, requests := map[], [];
    }

    method Entries(treeSha: string) returns (entries: Option<seq<Entry>>)
      requires Valid()
      modifies this
      ensures Valid() && old(cache.Keys) <= cache.Keys
      ensures entries == match store(treeSha) case Tree(e) => Some(e) case NoTree => None
      ensures requests == if treeSha in old(cache) then old(requests) else old(requests) + [treeSha]
    {
      if treeSha in cache {
        return Some(cache[treeSha]);
      }
      requests := requests + [treeSha];
      var reply := store(treeSha);
      if reply.NoTree? {
        return None;
      }
      cache := cache[treeSha := reply.entries];
      entries := Some(reply.entries);
    }

    /** Cached resolution agrees with a fresh walk, whatever the cache already holds. */
    method Resolve(baseTreeSha: string, components: seq<string>) returns (r: Result<Target, TargetError>)
      requires Valid() && components != []
      modifies this
      ensures Valid() && old(cache.Keys) <= cache.Keys
      ensures r == Walk(store, baseTreeSha, components)
    {
      var treeSha := baseTreeSha;
      for index := 0 to |components|
        invariant Valid() && old(cache.Keys) <= cache.Keys
        invariant index < |components|
        invariant Walk(store, baseTreeSha, components) == Walk(store, treeSha, components[index..])
      {
        var entries := Entries(treeSha);
        if entries.None? {
          return Err(TreeUnavailable);
        }
        var found := Lookup(entries.value, components[index]);
        if found.Err? {
          return Err(found.error);
        }
        if index == |components| - 1 {
          return FinalTarget(found.value);
        }
        if !IsDirectory(found.value) {
          return Err(NotADirectory);
        }
        treeSha := found.value.sha.value;
        assert components[index..][1..] == components[index + 1..];
      }
      assert false;
    }
  }

  // ----- Resolving a whole patch request -----

  datatype FilePatch = FilePatch(path: string, components: seq<string>, edits: seq<Edit>)

  datatype Resolved = Resolved(path: string, mode: string, beforeBlobSha: string, content: string, editCount: nat)

  datatype Limits = Limits(maxFileBytes: nat, maxCommitBytes: nat)

  datatype ResolveError =
    | BadTarget(target: TargetError) | FileTooLarge | BlobUnavailable | BadPatch(patch: PatchError)
    | Unchanged | ResultTooLarge | CommitTooLarge

  /** What the request validation guarantees before any patch is resolved. */
  predicate WellFormed(p: FilePatch) {
    p.components != [] && forall e :: e in p.edits ==> e.oldText != []
  }

  /** Everything a patch is resolved against: GitHub's trees, the text of each readable UTF-8 blob, the
      base tree, and the configured limits. */
  datatype World = World(
    store: string -> TreeReply, blobs: string -> Option<string>, base: string, limits: Limits)
  {
    /** The fresh, uncached outcome for one patch. */
    ghost predicate Resolves(p: FilePatch, file: Resolved) {
      p.components != [] &&
      var target := Walk(store, base, p.components);
      && target.Ok?
      && target.value.size.GetOr(0) <= limits.maxFileBytes
      && blobs(target.value.blobSha).Some?
      && var original := blobs(target.value.blobSha).value;
      && Applicable(original, p.edits) && AllFit(original, SpansOf(original, p.edits))
      && var content := Rewrite(original, SetOf(SpansOf(original, p.edits)), 0);
      && content != original && |Encode(content)| <= limits.maxFileBytes
      && file == Resolved(p.path, target.value.mode, target.value.blobSha, content, |p.edits|)
    }

    /** Why one patch has no outcome. */
    ghost predicate Rejects(p: FilePatch, error: ResolveError) {
      p.components != [] &&
      match Walk(store, base, p.components)
      case Err(reason) => error == BadTarget(reason)
      case Ok(target) =>
        if target.size.Some? && target.size.value > limits.maxFileBytes then error == FileTooLarge
        else if blobs(target.blobSha).None? then error == BlobUnavailable
        else
          var original := blobs(target.blobSha).value;
          if error.BadPatch? then
            FailsToPatch(original, p.edits, error.patch)
          else
            && Applicable(original, p.edits) && AllFit(original, SpansOf(original, p.edits))
            && var content := Rewrite(original, SetOf(SpansOf(original, p.edits)), 0);
               if content == original then error == Unchanged
               else error == ResultTooLarge && |Encode(content)| > limits.maxFileBytes
    }

    ghost predicate AllResolve(patches: seq<FilePatch>, files: seq<Resolved>) {
      |files| == |patches| && forall i :: 0 <= i < |patches| ==> Resolves(patches[i], files[i])
    }

    ghost predicate Accepts(patches: seq<FilePatch>, files: seq<Resolved>) {
      AllResolve(patches, files) && Total(ContentBytes, files) <= limits.maxCommitBytes
    }
  }

  function ContentBytes(file: Resolved): nat {
    |Encode(file.content)|
  }

  /** A resolved file keeps its patch's path and its tree entry's own mode and identity, and holds the
      patched text; neither the file it came from nor the result is over the file limit. */
  ghost predicate ResolvedFrom(world: World, p: FilePatch, entry: Entry, file: Resolved) {
    && file.path == p.path && file.editCount == |p.edits|
    && entry.kind == BlobEntry && entry.mode in {"100644", "100755"} && entry.mode == file.mode
    && entry.sha == Some(file.beforeBlobSha)
    && entry.size != BadSize && (entry.size.Sized? ==> entry.size.bytes <= world.limits.maxFileBytes)
    && world.blobs(file.beforeBlobSha).Some?
    && var original := world.blobs(file.beforeBlobSha).value;
    && Applicable(original, p.edits) && AllFit(original, SpansOf(original, p.edits))
    && file.content == Rewrite(original, SetOf(SpansOf(original, p.edits)), 0)
    && file.content != original && |Encode(file.content)| <= world.limits.maxFileBytes
  }

  ghost predicate ResolvedAlong(world: World, p: FilePatch, chain: seq<Entry>, file: Resolved)
    requires p.components != []
  {
    PathChain(world.store, world.base, p.components, chain) && ResolvedFrom(world, p, chain[|chain| - 1], file)
  }

  /** A patch resolves exactly if a chain of trees leads to a file whose readable text it changes. */
  lemma ResolvesExactly(world: World, p: FilePatch, file: Resolved)
    requires p.components != []
    ensures world.Resolves(p, file) <==> exists chain :: ResolvedAlong(world, p, chain, file)
  {
    if world.Resolves(p, file) {
      var chain := WalkHasChain(world.store, world.base, p.components);
      assert ResolvedAlong(world, p, chain, file);
    }
    if chain: seq<Entry> :| ResolvedAlong(world, p, chain, file) {
      var entry := chain[|chain| - 1];
      var target := Target(file.beforeBlobSha, file.mode, if entry.size.Sized? then Some(entry.size.bytes) else None);
      ChainIsWalked(world.store, world.base, p.components, chain, target);
    }
  }

  /** One patch through the shared cache: exactly its fresh, uncached outcome. */
  method ResolvePatch(trees: TreeCache, world: World, p: FilePatch) returns (r: Result<Resolved, ResolveError>)
    requires trees.Valid() && trees.store == world.store && WellFormed(p)
    modifies trees
    ensures trees.Valid()
    ensures r.Ok? ==> world.Resolves(p, r.value)
    ensures r.Err? ==> (forall file :: !world.Resolves(p, file)) && world.Rejects(p, r.error)
  {
    var target := trees.Resolve(world.base, p.components);
    if target.Err? {
      return Err(BadTarget(target.error));
    }
    if target.value.size.Some? && target.value.size.value > world.limits.maxFileBytes {
      return Err(FileTooLarge);
    }
    var blob := world.blobs(target.value.blobSha);
    if blob.None? {
      return Err(BlobUnavailable);
    }
    var original := blob.value;
    var materialized := MaterializeEdits(original, p.edits);
    if materialized.Err? {
      return Err(BadPatch(materialized.error));
    }
    var content := materialized.value.0;
    if content == original {
      return Err(Unchanged);
    }
    if |Encode(content)| > world.limits.maxFileBytes {
      return Err(ResultTooLarge);
    }
    r := Ok(Resolved(p.path, target.value.mode, target.value.blobSha, content, materialized.value.1));
  }

  lemma OneMoreResolved(world: World, patches: seq<FilePatch>, i: nat, files: seq<Resolved>, file: Resolved)
    requires i < |patches| && world.AllResolve(patches[..i], files) && world.Resolves(patches[i], file)
    ensures world.AllResolve(patches[..i + 1], files + [file])
    ensures Total(ContentBytes, files + [file]) == Total(ContentBytes, files) + |Encode(file.content)|
  {
    TotalAppend(ContentBytes, files, file);
    forall j | 0 <= j <= i ensures world.Resolves(patches[..i + 1][j], (files + [file])[j]) {
      if j < i {
        assert world.Resolves(patches[..i][j], files[j]);
      }
    }
  }

  lemma ResolvesOnce(world: World, patches: seq<FilePatch>, files: seq<Resolved>, files': seq<Resolved>)
    requires world.AllResolve(patches, files) && world.AllResolve(patches, files')
    ensures files == files'
  {
    forall i | 0 <= i < |patches| ensures files[i] == files'[i] {
      assert world.Resolves(patches[i], files[i]);
      assert world.Resolves(patches[i], files'[i]);
    }
  }

  ghost predicate ResolvesUpTo(world: World, patches: seq<FilePatch>, i: nat)
    requires i <= |patches|
  {
    exists files :: world.AllResolve(patches[..i], files)
  }

  /** Resolving everything through one growing cache is resolving every patch on its own; either all
      patches resolve within the limits, in order, or nothing is returned. */
  method ResolveAllPatches(world: World, patches: seq<FilePatch>) returns (r: Result<seq<Resolved>, ResolveError>)
    requires forall p :: p in patches ==> WellFormed(p)
    ensures r.Ok? ==> world.Accepts(patches, r.value)
    ensures r.Err? ==> forall files :: !world.Accepts(patches, files)
    ensures r.Err? && r.error != CommitTooLarge ==>
              exists i :: 0 <= i < |patches| && ResolvesUpTo(world, patches, i) && world.Rejects(patches[i], r.error)
    ensures r == Err(CommitTooLarge) ==>
              exists files :: world.AllResolve(patches, files) && Total(ContentBytes, files) > world.limits.maxCommitBytes
  {
    var trees := new TreeCache(world.store);
    var resolved: seq<Resolved> := [];
    var aggregate := 0;
    for i := 0 to |patches|
      invariant trees.Valid() && fresh(trees) && trees.store == world.store
      invariant world.AllResolve(patches[..i], resolved)
      invariant aggregate == Total(ContentBytes, resolved)
    {
      assert patches[i] in patches;
      var one := ResolvePatch(trees, world, patches[i]);
      if one.Err? {
        return Err(one.error);
      }
      aggregate := aggregate + |Encode(one.value.content)|;
      OneMoreResolved(world, patches, i, resolved, one.value);
      resolved := resolved + [one.value];
    }
    assert patches[..|patches|] == patches;
    if aggregate > world.limits.maxCommitBytes {
      forall files | world.AllResolve(patches, files) ensures files == resolved {
        ResolvesOnce(world, patches, files, resolved);
      }
      return Err(CommitTooLarge);
    }
    r := Ok(resolved);
  }

  /** Acceptance and the resolved files, as a multiset, do not depend on the order of the patches. */
  lemma ResolutionForgetsOrder(world: World, patches: seq<FilePatch>, files: seq<Resolved>, patches': seq<FilePatch>)
    returns (files': seq<Resolved>)
    requires world.Accepts(patches, files) && multiset(patches) == multiset(patches')
    ensures world.Accepts(patches', files') && multiset(files) == multiset(files')
  {
    var pairs := seq(|patches|, i requires 0 <= i < |patches| => (patches[i], files[i]));
    assert Firsts(pairs) == patches;
    var pairs' := Rearrange(pairs, patches');
    files' := seq(|pairs'|, i requires 0 <= i < |pairs'| => pairs'[i].1);
    forall i | 0 <= i < |patches'| ensures world.Resolves(patches'[i], files'[i]) {
      assert pairs'[i] in multiset(pairs);
      var j :| 0 <= j < |pairs| && pairs[j] == pairs'[i];
      assert world.Resolves(patches[j], files[j]);
      assert Firsts(pairs')[i] == patches'[i];
    }
    SecondsForgetOrder(pairs, pairs');
    assert files == Seconds(pairs) && files' == Seconds(pairs');
    TotalForgetsOrder(ContentBytes, files, files');
  }
}
