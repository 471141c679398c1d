/**
 * `FileHelpers`: the `IMAGE_REGEX` test and the recursive directory listing
 * `findFilesInDir`, with the file system replaced by an abstract tree.
 */
module FileHelpers {
  import opened Wrappers
  import opened Text
  import Seqs

  /** The three alternatives of `IMAGE_REGEX`, in the order the regex tries them. */
  datatype ImageExtension = Jpeg | Jpg | Png

  function ExtensionText(e: ImageExtension): string {
    match e
    case Jpeg => ".jpeg"
    case Jpg => ".jpg"
    case Png => ".png"
  }

  /**
   * The regex `/(\.jpeg)|(\.jpg)|(\.png)$/` anchored at position `q`: the
   * alternatives are tried left to right, and the end anchor belongs to the
   * last alternative only.
   */
  function MatchAt(s: string, q: nat): Option<ImageExtension> {
    if OccursAt(s, ".jpeg", q) then Some(Jpeg)
    else if OccursAt(s, ".jpg", q) then Some(Jpg)
    else if OccursAt(s, ".png", q) && q + 4 == |s| then Some(Png)
    else None
  }

  /** Where the regex search starting at `k` finds its match: the least matching position. */
  function FirstMatchFrom(s: string, k: nat): (r: Option<nat>)
    requires k <= |s|
    ensures r.Some? ==> k <= r.value <= |s| && MatchAt(s, r.value).Some?
    ensures r.Some? ==> forall j :: k <= j < r.value ==> MatchAt(s, j).None?
    ensures r.None? ==> forall j :: k <= j <= |s| ==> MatchAt(s, j).None?
    decreases |s| - k
  {
    if MatchAt(s, k).Some? then Some(k)
    else if k == |s| then None
    else FirstMatchFrom(s, k + 1)
  }

  /** `IMAGE_REGEX.test(s)`. */
  function ImageRegexTest(s: string): (b: bool)
    ensures b <==> Contains(s, ".jpeg") || Contains(s, ".jpg") || EndsWith(s, ".png")
  {
    var r := FirstMatchFrom(s, 0);
    if r.Some? then
      var q := r.value;
      assert OccursAt(s, ".jpeg", q) || OccursAt(s, ".jpg", q) || (OccursAt(s, ".png", q) && q + 4 == |s|);
      true
    else
      assert !Contains(s, ".jpeg") by {
        forall i | 0 <= i <= |s| ensures !OccursAt(s, ".jpeg", i) {
          assert MatchAt(s, i).None?;
        }
      }
      assert !Contains(s, ".jpg") by {
        forall i | 0 <= i <= |s| ensures !OccursAt(s, ".jpg", i) {
          assert MatchAt(s, i).None?;
        }
      }
      assert !EndsWith(s, ".png") by {
        if |s| >= 4 {
          assert MatchAt(s, |s| - 4).None?;
          assert s[|s| - 4..] == s[|s| - 4..|s| - 4 + 4];
        }
      }
      false
  }

  /** The end anchor belongs to `.png` only: a `.jpg` anywhere matches, a `.png` not at the end does not. */
  lemma AnchorBindsOnlyPng()
    ensures ImageRegexTest("a.jpg.txt")
    ensures !ImageRegexTest("a.png.txt")
    ensures ImageRegexTest("a.png")
  {
    assert OccursAt("a.jpg.txt", ".jpg", 1);
    assert EndsWith("a.png", ".png");
    var s := "a.png.txt";
    assert forall k :: 0 <= k < |s| ==> s[k] != 'j';
    forall i | 0 <= i <= |s| ensures !OccursAt(s, ".jpeg", i) && !OccursAt(s, ".jpg", i) {
      if i + 4 <= |s| {
        assert s[i..i + 4][1] == s[i + 1];
      }
      if i + 5 <= |s| {
        assert s[i..i + 5][1] == s[i + 1];
      }
    }
    assert s[|s| - 4..] == ".txt";
  }

  /**
   * An abstract directory tree. A `Folder` whose listing cannot be read is
   * `Unreadable`; every entry that is not a directory is a `File`.
   */
  datatype Node = File(name: string) | Folder(name: string, contents: Listing)
  datatype Listing = Unreadable | Entries(nodes: seq<Node>)

  /** `path.join(dir, name)`, without normalisation. */
  function JoinPath(dir: string, name: string): string {
    dir + "/" + name
  }

  /**
   * `findFilesInDir(startPath, filter)` where `listing` is what reading
   * `startPath` gives: the paths of the files under it that pass `filter`,
   * depth first in listing order.
   */
  function FindFilesInDir(startPath: string, listing: Listing, filter: string -> bool): (r: seq<string>)
    ensures listing.Unreadable? ==> r == []
    ensures forall i :: 0 <= i < |r| ==> filter(r[i])
    decreases listing
  {
    match listing
    case Unreadable => []
    case Entries(nodes) => FindInEntries(startPath, nodes, filter)
  }

  function FindInEntries(dir: string, nodes: seq<Node>, filter: string -> bool): (r: seq<string>)
    ensures forall i :: 0 <= i < |r| ==> filter(r[i])
    decreases nodes
  {
    if |nodes| == 0 then []
    else
      var fileName := JoinPath(dir, nodes[0].name);
      var head :=
        match nodes[0]
        case Folder(_, contents) => FindFilesInDir(fileName, contents, filter)
        case File(_) => if filter(fileName) then [fileName] else [];
      head + FindInEntries(dir, nodes[1..], filter)
  }

  /** Reference definition: every file (never a folder) under `listing`, depth first in listing order. */
  function AllFilePaths(startPath: string, listing: Listing): seq<string>
    decreases listing
  {
    match listing
    case Unreadable => []
    case Entries(nodes) => AllInEntries(startPath, nodes)
  }

  function AllInEntries(dir: string, nodes: seq<Node>): seq<string>
    decreases nodes
  {
    if |nodes| == 0 then []
    else
      var fileName := JoinPath(dir, nodes[0].name);
      var head :=
        match nodes[0]
        case Folder(_, contents) => AllFilePaths(fileName, contents)
        case File(_) => [fileName];
      head + AllInEntries(dir, nodes[1..])
  }

  /**
   * The listing returns exactly the files of the tree that pass the filter,
   * in the tree's depth-first order, with each folder's results spliced in
   * at the folder's position.
   */
  lemma {:induction false} FindIsFilteredTraversal(startPath: string, listing: Listing, filter: string -> bool)
    ensures FindFilesInDir(startPath, listing, filter) == Seqs.Filter(AllFilePaths(startPath, listing), filter)
    decreases listing
  {
    match listing
    case Unreadable =>
    case Entries(nodes) => EntriesAreFilteredTraversal(startPath, nodes, filter);
  }

  lemma {:induction false} EntriesAreFilteredTraversal(dir: string, nodes: seq<Node>, filter: string -> bool)
    ensures FindInEntries(dir, nodes, filter) == Seqs.Filter(AllInEntries(dir, nodes), filter)
    decreases nodes
  {
    if |nodes| > 0 {
      var fileName := JoinPath(dir, nodes[0].name);
      EntriesAreFilteredTraversal(dir, nodes[1..], filter);
      match nodes[0]
      case Folder(_, contents) =>
        FindIsFilteredTraversal(fileName, contents, filter);
        Seqs.FilterConcat(AllFilePaths(fileName, contents), AllInEntries(dir, nodes[1..]), filter);
      case File(_) =>
        Seqs.FilterConcat([fileName], AllInEntries(dir, nodes[1..]), filter);
        assert Seqs.Filter([fileName], filter) == if filter(fileName) then [fileName] else [] by {
          assert [fileName][1..] == [];
        }
    }
  }

  /** `p` is the joined path of some `File` node under `listing`. */
  ghost predicate FileIn(dir: string, listing: Listing, p: string)
    decreases listing
  {
    listing.Entries? && FileAmong(dir, listing.nodes, p)
  }

  ghost predicate FileAmong(dir: string, nodes: seq<Node>, p: string)
    decreases nodes
  {
    exists i :: 0 <= i < |nodes| && FileAtEntry(dir, nodes, i, p)
  }

  ghost predicate FileAtEntry(dir: string, nodes: seq<Node>, i: int, p: string)
    requires 0 <= i < |nodes|
    decreases nodes, 0
  {
    match nodes[i]
    case File(name) => p == JoinPath(dir, name)
    case Folder(name, contents) => FileIn(JoinPath(dir, name), contents, p)
  }

  /** Folders themselves are never listed: every returned path belongs to a file of the tree. */
  lemma {:induction false} FoundAreFiles(startPath: string, listing: Listing, filter: string -> bool)
    ensures forall p :: p in FindFilesInDir(startPath, listing, filter) ==> FileIn(startPath, listing, p)
    decreases listing
  {
    match listing
    case Unreadable =>
    case Entries(nodes) => FoundEntriesAreFiles(startPath, nodes, filter);
  }

  lemma {:induction false} FoundEntriesAreFiles(dir: string, nodes: seq<Node>, filter: string -> bool)
    ensures forall p :: p in FindInEntries(dir, nodes, filter) ==> FileAmong(dir, nodes, p)
    decreases nodes
  {
    if |nodes| > 0 {
      var fileName := JoinPath(dir, nodes[0].name);
      var rest := nodes[1..];
      FoundEntriesAreFiles(dir, rest, filter);
      forall p | p in FindInEntries(dir, rest, filter) ensures FileAmong(dir, nodes, p) {
        assert FileAmong(dir, rest, p);
        var i :| 0 <= i < |rest| && FileAtEntry(dir, rest, i, p);
        assert rest[i] == nodes[i + 1];
        assert FileAtEntry(dir, nodes, i + 1, p);
      }
      match nodes[0]
      case Folder(_, contents) =>
        FoundAreFiles(fileName, contents, filter);
        forall p | p in FindFilesInDir(fileName, contents, filter) ensures FileAmong(dir, nodes, p) {
          assert FileAtEntry(dir, nodes, 0, p);
        }
      case File(_) =>
        if filter(fileName) {
          assert FileAtEntry(dir, nodes, 0, fileName);
        }
    }
  }
}
