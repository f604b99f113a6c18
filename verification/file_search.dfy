/** `FileSystemEntity::classify` and `FileSearcher::search_and_copy` over an
    abstract, finite directory tree.

    The tree is a snapshot of every answer the file system would give the walk:
    the result of `read_dir` on each directory, of each step of its entry
    iterator, of `metadata` and of `canonicalize` on each entry. `fs::copy` is a
    parameter mapping a source and a destination to its outcome. A walk yields
    a `Trace`: the copies attempted, in order, and whether the walk completed
    or was aborted by an error. */
module FileSearch {
  import opened Seqs
  import opened Slugs
  import opened Paths

  /** An operating-system error; only its identity matters to the walk. */
  datatype IoError = IoError(code: int)

  datatype IoResult<T> = Ok(value: T) | Err(error: IoError)

  /** The kind of entry `metadata` reports. It follows symbolic links, so a link
      reports the kind of its target; `Special` is a socket, pipe or device. */
  datatype FileType = RegularFile | Directory | Special

  datatype FileSystemEntity = File | Folder

  /** `FileSystemEntity::classify`: a metadata error is passed on, a directory
      is a `Folder`, and a regular file or any other kind is a `File`. */
  function Classify(metadata: IoResult<FileType>): (r: IoResult<FileSystemEntity>)
    ensures r.Err? <==> metadata.Err?
    ensures metadata.Err? ==> r == Err(metadata.error)
    ensures r == Ok(Folder) <==> metadata == Ok(Directory)
    ensures r == Ok(File) <==> metadata.Ok? && metadata.value != Directory
  {
    match metadata
    case Err(e) => Err(e)
    case Ok(kind) =>
      if kind == RegularFile then Ok(File)
      else if kind == Directory then Ok(Folder)
      else Ok(File)
  }

  /** One directory entry and what the file system answers about it. */
  datatype Entry = Entry(
    path: string,                       // `entry.path()`
    metadata: IoResult<FileType>,       // `path.metadata()`
    canonical: IoResult<seq<Name>>,     // `path.canonicalize()`: the names after the root
    listing: Listing)                   // `fs::read_dir(path)`, asked only of a folder

  /** The answer of `fs::read_dir`: an error, or the items its iterator yields. */
  datatype Listing = ReadDirFailed(error: IoError) | Listed(items: seq<Item>)

  /** One step of the `read_dir` iterator: an error, or an entry. */
  datatype Item = EntryFailed(error: IoError) | Present(entry: Entry)

  /** `dest_folder_path.join(slug)`. The slug holds no slash, so it adds at most
      one component; an empty slug names the folder itself, and "." or ".."
      name the folder or its parent rather than a file inside it. */
  datatype DestPath = Join(folder: string, name: string)

  type CopyFn = (string, DestPath) -> IoResult<nat>

  datatype CopyAttempt = CopyAttempt(source: string, dest: DestPath, outcome: IoResult<nat>)

  datatype Status = Completed | Aborted(error: IoError)

  datatype Trace = Trace(copies: seq<CopyAttempt>, status: Status)

  datatype TargetFile = RelativePath(relative: string) | AbsolutePath(absolute: string)

  function Sources(cs: seq<CopyAttempt>): (r: seq<string>)
    ensures |r| == |cs|
    ensures forall i :: 0 <= i < |cs| ==> r[i] == cs[i].source
  {
    seq(|cs|, i requires 0 <= i < |cs| => cs[i].source)
  }

  lemma {:induction false} SourcesAppend(a: seq<CopyAttempt>, b: seq<CopyAttempt>)
    ensures Sources(a + b) == Sources(a) + Sources(b)
  {
  }

  /** Every attempt went to `dest` and its outcome is what `copy` answers. */
  predicate AllTo(cs: seq<CopyAttempt>, dest: DestPath, copy: CopyFn)
  {
    forall i :: 0 <= i < |cs| ==> cs[i].dest == dest && cs[i].outcome == copy(cs[i].source, dest)
  }

  // Reference definitions, written over the tree without the walk's control flow.

  /** No step the walk takes in this directory fails: `read_dir`, every entry,
      every `metadata`, every file's `canonicalize`, recursively into folders. */
  predicate SoundListing(l: Listing)
    decreases l
  {
    match l
    case ReadDirFailed(_) => false
    case Listed(items) => SoundItems(items)
  }

  predicate SoundItems(items: seq<Item>)
    decreases items
  {
    items == [] || (SoundItem(items[0]) && SoundItems(items[1..]))
  }

  predicate SoundItem(item: Item)
    decreases item
  {
    match item
    case EntryFailed(_) => false
    case Present(e) =>
      match e.metadata
      case Err(_) => false
      case Ok(kind) => if kind == Directory then SoundListing(e.listing) else e.canonical.Ok?
  }

  /** The paths of all files under the directory whose canonical path ends with
      `target` component-wise, depth first in listing order. Failing steps
      contribute nothing. */
  function MatchesListing(l: Listing, target: seq<Component>): seq<string>
    decreases l
  {
    match l
    case ReadDirFailed(_) => []
    case Listed(items) => MatchesItems(items, target)
  }

  function MatchesItems(items: seq<Item>, target: seq<Component>): seq<string>
    decreases items
  {
    if items == [] then [] else MatchesItem(items[0], target) + MatchesItems(items[1..], target)
  }

  function MatchesItem(item: Item, target: seq<Component>): seq<string>
    decreases item
  {
    match item
    case EntryFailed(_) => []
    case Present(e) =>
      match e.metadata
      case Err(_) => []
      case Ok(kind) =>
        if kind == Directory then MatchesListing(e.listing, target)
        else if e.canonical.Ok? && EndsWith(Canonical(e.canonical.value), target) then [e.path]
        else []
  }

  /** What the walk meets, in depth-first listing order, with no abort logic:
      each matching file, and each failing `read_dir`, entry, `metadata` or
      `canonicalize` step. */
  datatype Event = Found(path: string) | Failed(error: IoError)

  function EventsListing(l: Listing, target: seq<Component>): seq<Event>
    decreases l
  {
    match l
    case ReadDirFailed(e) => [Failed(e)]
    case Listed(items) => EventsItems(items, target)
  }

  function EventsItems(items: seq<Item>, target: seq<Component>): seq<Event>
    decreases items
  {
    if items == [] then [] else EventsItem(items[0], target) + EventsItems(items[1..], target)
  }

  function EventsItem(item: Item, target: seq<Component>): seq<Event>
    decreases item
  {
    match item
    case EntryFailed(e) => [Failed(e)]
    case Present(e) =>
      match e.metadata
      case Err(x) => [Failed(x)]
      case Ok(kind) =>
        if kind == Directory then EventsListing(e.listing, target)
        else
          match e.canonical
          case Err(x) => [Failed(x)]
          case Ok(names) => if EndsWith(Canonical(names), target) then [Found(e.path)] else []
  }

  /** The files found before the first failure. */
  function FoundBefore(evs: seq<Event>): seq<string>
  {
    if evs == [] || evs[0].Failed? then [] else [evs[0].path] + FoundBefore(evs[1..])
  }

  /** The first failure's error, or `Completed` when nothing fails. */
  function FirstFailure(evs: seq<Event>): Status
  {
    if evs == [] then Completed
    else if evs[0].Failed? then Aborted(evs[0].error)
    else FirstFailure(evs[1..])
  }

  lemma {:induction false} EventsAppend(a: seq<Event>, b: seq<Event>)
    ensures FirstFailure(a + b) == if FirstFailure(a).Aborted? then FirstFailure(a) else FirstFailure(b)
    ensures FoundBefore(a + b) == FoundBefore(a) + if FirstFailure(a).Aborted? then [] else FoundBefore(b)
    decreases |a|
  {
    if a == [] {
      assert a + b == b;
    } else {
      assert (a + b)[0] == a[0];
      assert (a + b)[1..] == a[1..] + b;
      EventsAppend(a[1..], b);
      if a[0].Found? {
        var tail := if FirstFailure(a[1..]).Aborted? then [] else FoundBefore(b);
        assert [a[0].path] + (FoundBefore(a[1..]) + tail) == ([a[0].path] + FoundBefore(a[1..])) + tail;
      }
    }
  }

  // The walk of the `RelativePath` branch.

  /** One call of `search_and_copy` on a directory: `read_dir`, then its entries. */
  function WalkListing(l: Listing, target: seq<Component>, dest: DestPath, copy: CopyFn): (r: Trace)
    ensures AllTo(r.copies, dest, copy)
    ensures r.status.Completed? <==> SoundListing(l)
    decreases l
  {
    match l
    case ReadDirFailed(e) => Trace([], Aborted(e))
    case Listed(items) => WalkItems(items, target, dest, copy)
  }

  /** The `for entry in ...` loop: an aborted entry ends the loop and the call. */
  function WalkItems(items: seq<Item>, target: seq<Component>, dest: DestPath, copy: CopyFn): (r: Trace)
    ensures AllTo(r.copies, dest, copy)
    ensures r.status.Completed? <==> SoundItems(items)
    decreases items
  {
    if items == [] then Trace([], Completed)
    else
      var first := WalkItem(items[0], target, dest, copy);
      if first.status.Aborted? then first
      else
        var rest := WalkItems(items[1..], target, dest, copy);
        Trace(first.copies + rest.copies, rest.status)
  }

  /** The loop body for one entry. */
  function WalkItem(item: Item, target: seq<Component>, dest: DestPath, copy: CopyFn): (r: Trace)
    ensures AllTo(r.copies, dest, copy)
    ensures r.status.Completed? <==> SoundItem(item)
    decreases item
  {
    match item
    case EntryFailed(e) => Trace([], Aborted(e))
    case Present(entry) =>
      match Classify(entry.metadata)
      case Err(e) => Trace([], Aborted(e))
      case Ok(File) =>
        (match entry.canonical
         case Err(e) => Trace([], Aborted(e))
         case Ok(names) =>
           if EndsWith(Canonical(names), target) then
             // A failed copy is only logged: the attempt is recorded, the walk goes on.
             Trace([CopyAttempt(entry.path, dest, copy(entry.path, dest))], Completed)
           else Trace([], Completed))
      case Ok(Folder) => WalkListing(entry.listing, target, dest, copy)
  }

  /** The files a walk copies are the matching files, depth first, up to the
      point where it aborts: always a prefix of them, and all of them when the
      walk completes. */
  lemma {:induction false} WalkListingCopiesMatches(l: Listing, target: seq<Component>, dest: DestPath, copy: CopyFn)
    ensures var r := WalkListing(l, target, dest, copy);
      && Sources(r.copies) <= MatchesListing(l, target)
      && (r.status.Completed? ==> Sources(r.copies) == MatchesListing(l, target))
    decreases l
  {
    match l
    case ReadDirFailed(_) =>
    case Listed(items) => WalkItemsCopiesMatches(items, target, dest, copy);
  }

  lemma {:induction false} WalkItemsCopiesMatches(items: seq<Item>, target: seq<Component>, dest: DestPath, copy: CopyFn)
    ensures var r := WalkItems(items, target, dest, copy);
      && Sources(r.copies) <= MatchesItems(items, target)
      && (r.status.Completed? ==> Sources(r.copies) == MatchesItems(items, target))
    decreases items
  {
    if items != [] {
      var first := WalkItem(items[0], target, dest, copy);
      var m := MatchesItem(items[0], target);
      var ms := MatchesItems(items[1..], target);
      WalkItemCopiesMatches(items[0], target, dest, copy);
      if first.status.Aborted? {
        PrefixExtend(Sources(first.copies), m, ms);
      } else {
        var rest := WalkItems(items[1..], target, dest, copy);
        WalkItemsCopiesMatches(items[1..], target, dest, copy);
        SourcesAppend(first.copies, rest.copies);
        PrefixConcat(m, Sources(rest.copies), ms);
      }
    }
  }

  lemma {:induction false} WalkItemCopiesMatches(item: Item, target: seq<Component>, dest: DestPath, copy: CopyFn)
    ensures var r := WalkItem(item, target, dest, copy);
      && Sources(r.copies) <= MatchesItem(item, target)
      && (r.status.Completed? ==> Sources(r.copies) == MatchesItem(item, target))
    decreases item
  {
    match item
    case EntryFailed(_) =>
    case Present(entry) =>
      if Classify(entry.metadata) == Ok(Folder) {
        WalkListingCopiesMatches(entry.listing, target, dest, copy);
      }
  }

  /** The walk is its event stream cut at the first failure: it copies exactly
      the files found before that failure and returns that failure's error,
      unchanged, or completes when no step fails. */
  lemma {:induction false} WalkListingFollowsEvents(l: Listing, target: seq<Component>, dest: DestPath, copy: CopyFn)
    ensures var r := WalkListing(l, target, dest, copy);
      && r.status == FirstFailure(EventsListing(l, target))
      && Sources(r.copies) == FoundBefore(EventsListing(l, target))
    decreases l
  {
    match l
    case ReadDirFailed(e) =>
      assert [Failed(e)][1..] == [];
    case Listed(items) => WalkItemsFollowsEvents(items, target, dest, copy);
  }

  lemma {:induction false} WalkItemsFollowsEvents(items: seq<Item>, target: seq<Component>, dest: DestPath, copy: CopyFn)
    ensures var r := WalkItems(items, target, dest, copy);
      && r.status == FirstFailure(EventsItems(items, target))
      && Sources(r.copies) == FoundBefore(EventsItems(items, target))
    decreases items
  {
    if items != [] {
      var first := WalkItem(items[0], target, dest, copy);
      WalkItemFollowsEvents(items[0], target, dest, copy);
      EventsAppend(EventsItem(items[0], target), EventsItems(items[1..], target));
      if first.status.Completed? {
        var rest := WalkItems(items[1..], target, dest, copy);
        WalkItemsFollowsEvents(items[1..], target, dest, copy);
        SourcesAppend(first.copies, rest.copies);
      } else {
        assert FoundBefore(EventsItem(items[0], target)) + [] == FoundBefore(EventsItem(items[0], target));
      }
    }
  }

  lemma {:induction false} WalkItemFollowsEvents(item: Item, target: seq<Component>, dest: DestPath, copy: CopyFn)
    ensures var r := WalkItem(item, target, dest, copy);
      && r.status == FirstFailure(EventsItem(item, target))
      && Sources(r.copies) == FoundBefore(EventsItem(item, target))
    decreases item
  {
    match item
    case EntryFailed(e) =>
      assert [Failed(e)][1..] == [];
    case Present(entry) =>
      match entry.metadata
      case Err(x) =>
        assert [Failed(x)][1..] == [];
      case Ok(kind) =>
        if kind == Directory {
          WalkListingFollowsEvents(entry.listing, target, dest, copy);
        } else {
          match entry.canonical
          case Err(x) =>
            assert [Failed(x)][1..] == [];
          case Ok(names) =>
            assert [Found(entry.path)][1..] == [];
        }
  }

  lemma {:induction false} PrefixExtend(a: seq<string>, b: seq<string>, c: seq<string>)
    requires a <= b
    ensures a <= b + c
  {
    assert (b + c)[..|b|] == b;
  }

  lemma {:induction false} PrefixConcat(x: seq<string>, a: seq<string>, b: seq<string>)
    requires a <= b
    ensures x + a <= x + b
  {
    assert (x + b)[..|x + a|] == x + a;
  }

  datatype FileSearcher = FileSearcher(destFolder: string) {

    /** `search_and_copy`. A relative target is searched for under the
        directory and every match is copied to the folder under the target's
        slug; an absolute target is copied directly, its error passed on. */
    function SearchAndCopy(target: TargetFile, searchDirectory: Listing, copy: CopyFn): (r: Trace)
      ensures target.RelativePath? ==>
        var dest := Join(destFolder, Slug(target.relative));
        var matches := MatchesListing(searchDirectory, Components(target.relative));
        && AllTo(r.copies, dest, copy)
        && (r.status.Completed? <==> SoundListing(searchDirectory))
        && Sources(r.copies) <= matches
        && (r.status.Completed? ==> Sources(r.copies) == matches)
        && r.status == FirstFailure(EventsListing(searchDirectory, Components(target.relative)))
        && Sources(r.copies) == FoundBefore(EventsListing(searchDirectory, Components(target.relative)))
      ensures target.AbsolutePath? ==>
        var dest := Join(destFolder, Slug(target.absolute));
        var outcome := copy(target.absolute, dest);
        && r.copies == [CopyAttempt(target.absolute, dest, outcome)]
        && (outcome.Ok? ==> r.status == Completed)
        && (outcome.Err? ==> r.status == Aborted(outcome.error))
    {
      match target
      case RelativePath(relative) =>
        WalkListingCopiesMatches(searchDirectory, Components(relative), Join(destFolder, Slug(relative)), copy);
        WalkListingFollowsEvents(searchDirectory, Components(relative), Join(destFolder, Slug(relative)), copy);
        WalkListing(searchDirectory, Components(relative), Join(destFolder, Slug(relative)), copy)
      case AbsolutePath(absolute) =>
        var dest := Join(destFolder, Slug(absolute));
        var outcome := copy(absolute, dest);
        Trace([CopyAttempt(absolute, dest, outcome)], if outcome.Ok? then Completed else Aborted(outcome.error))
    }
  }

  /** The outcome of a copy in the relative branch never changes the course of
      the walk: with any two copy functions the same files are attempted and
      the walk ends the same way. */
  lemma {:induction false} CopyOutcomesIgnoredListing(l: Listing, target: seq<Component>, dest: DestPath, c1: CopyFn, c2: CopyFn)
    ensures WalkListing(l, target, dest, c1).status == WalkListing(l, target, dest, c2).status
    ensures Sources(WalkListing(l, target, dest, c1).copies) == Sources(WalkListing(l, target, dest, c2).copies)
    decreases l
  {
    match l
    case ReadDirFailed(_) =>
    case Listed(items) => CopyOutcomesIgnoredItems(items, target, dest, c1, c2);
  }

  lemma {:induction false} CopyOutcomesIgnoredItems(items: seq<Item>, target: seq<Component>, dest: DestPath, c1: CopyFn, c2: CopyFn)
    ensures WalkItems(items, target, dest, c1).status == WalkItems(items, target, dest, c2).status
    ensures Sources(WalkItems(items, target, dest, c1).copies) == Sources(WalkItems(items, target, dest, c2).copies)
    decreases items
  {
    if items != [] {
      CopyOutcomesIgnoredItem(items[0], target, dest, c1, c2);
      var f1 := WalkItem(items[0], target, dest, c1);
      var f2 := WalkItem(items[0], target, dest, c2);
      if f1.status.Completed? {
        CopyOutcomesIgnoredItems(items[1..], target, dest, c1, c2);
        var r1 := WalkItems(items[1..], target, dest, c1);
        var r2 := WalkItems(items[1..], target, dest, c2);
        SourcesAppend(f1.copies, r1.copies);
        SourcesAppend(f2.copies, r2.copies);
      }
    }
  }

  lemma {:induction false} CopyOutcomesIgnoredItem(item: Item, target: seq<Component>, dest: DestPath, c1: CopyFn, c2: CopyFn)
    ensures WalkItem(item, target, dest, c1).status == WalkItem(item, target, dest, c2).status
    ensures Sources(WalkItem(item, target, dest, c1).copies) == Sources(WalkItem(item, target, dest, c2).copies)
    decreases item
  {
    match item
    case EntryFailed(_) =>
    case Present(entry) =>
      if Classify(entry.metadata) == Ok(Folder) {
        CopyOutcomesIgnoredListing(entry.listing, target, dest, c1, c2);
      }
  }

  /** An entry that aborts ends the directory's loop: the entries after it are
      never visited, whatever they hold. */
  lemma {:induction false} AbortSkipsRest(pre: seq<Item>, bad: Item, post: seq<Item>, target: seq<Component>, dest: DestPath, copy: CopyFn)
    requires WalkItems(pre, target, dest, copy).status.Completed?
    requires WalkItem(bad, target, dest, copy).status.Aborted?
    ensures WalkItems(pre + [bad] + post, target, dest, copy)
         == Trace(WalkItems(pre, target, dest, copy).copies + WalkItem(bad, target, dest, copy).copies,
                  WalkItem(bad, target, dest, copy).status)
  {
    var suffix := [bad] + post;
    assert pre + [bad] + post == pre + suffix;
    assert WalkItems(suffix, target, dest, copy) == WalkItem(bad, target, dest, copy) by {
      assert suffix[0] == bad;
      WalkItemsCons(suffix, target, dest, copy);
    }
    WalkItemsAppend(pre, suffix, target, dest, copy);
  }

  /** The entry loop over `a + b` is the loop over `a`, then, unless that
      aborted, the loop over `b`. */
  lemma {:induction false} WalkItemsAppend(a: seq<Item>, b: seq<Item>, target: seq<Component>, dest: DestPath, copy: CopyFn)
    ensures var ra := WalkItems(a, target, dest, copy);
      var rb := WalkItems(b, target, dest, copy);
      WalkItems(a + b, target, dest, copy)
        == if ra.status.Aborted? then ra else Trace(ra.copies + rb.copies, rb.status)
    decreases |a|
  {
    var rb := WalkItems(b, target, dest, copy);
    if a == [] {
      assert a + b == b;
      assert [] + rb.copies == rb.copies;
    } else {
      var first := WalkItem(a[0], target, dest, copy);
      var tail := WalkItems(a[1..], target, dest, copy);
      var ra := WalkItems(a, target, dest, copy);
      assert ra == if first.status.Aborted? then first else Trace(first.copies + tail.copies, tail.status) by {
        WalkItemsCons(a, target, dest, copy);
      }
      var rest := WalkItems(a[1..] + b, target, dest, copy);
      assert WalkItems(a + b, target, dest, copy)
          == if first.status.Aborted? then first else Trace(first.copies + rest.copies, rest.status) by {
        assert (a + b)[0] == a[0] && (a + b)[1..] == a[1..] + b;
        WalkItemsCons(a + b, target, dest, copy);
      }
      if first.status.Completed? {
        assert rest == if tail.status.Aborted? then tail else Trace(tail.copies + rb.copies, rb.status) by {
          WalkItemsAppend(a[1..], b, target, dest, copy);
        }
        ConcatAssoc(first.copies, tail.copies, rb.copies);
      }
    }
  }


  /** One turn of the entry loop. */
  lemma {:induction false} WalkItemsCons(items: seq<Item>, target: seq<Component>, dest: DestPath, copy: CopyFn)
    requires items != []
    ensures var first := WalkItem(items[0], target, dest, copy);
      var rest := WalkItems(items[1..], target, dest, copy);
      WalkItems(items, target, dest, copy)
        == if first.status.Aborted? then first else Trace(first.copies + rest.copies, rest.status)
  {
  }

  /** The walk does not stop at the first match: when nothing fails, a tree
      with a matching file in the searched folder and another in a sub-folder
      has both copied, in that order, to the same destination. */
  lemma {:induction false} BothMatchesCopied(a: Entry, b: Entry, sub: Entry, target: seq<Component>, dest: DestPath, copy: CopyFn)
    requires a.metadata == Ok(RegularFile) && a.canonical.Ok? && EndsWith(Canonical(a.canonical.value), target)
    requires b.metadata == Ok(RegularFile) && b.canonical.Ok? && EndsWith(Canonical(b.canonical.value), target)
    requires sub.metadata == Ok(Directory) && sub.listing == Listed([Present(b)])
    ensures WalkListing(Listed([Present(a), Present(sub)]), target, dest, copy)
         == Trace([CopyAttempt(a.path, dest, copy(a.path, dest)), CopyAttempt(b.path, dest, copy(b.path, dest))], Completed)
  {
    var ca := CopyAttempt(a.path, dest, copy(a.path, dest));
    var cb := CopyAttempt(b.path, dest, copy(b.path, dest));
    assert WalkItem(Present(b), target, dest, copy) == Trace([cb], Completed);
    assert [Present(b)][1..] == [];
    assert WalkItems([Present(b)], target, dest, copy) == Trace([cb], Completed);
    assert WalkItem(Present(sub), target, dest, copy) == Trace([cb], Completed);
    assert [Present(sub)][1..] == [];
    assert WalkItems([Present(sub)], target, dest, copy) == Trace([cb], Completed);
    assert WalkItem(Present(a), target, dest, copy) == Trace([ca], Completed);
    assert [Present(a), Present(sub)][1..] == [Present(sub)];
  }
}
