/**
 * `prepareProgressiveImages`: for every image found that is not itself a
 * progressive variant, write a scaled and blurred copy named
 * `<stem>-OptimusIMG-progressive<extension>`. The codec is reduced to whether
 * reading a path and writing a path succeed.
 */
module PrepareProgressive {
  import opened Wrappers
  import opened Text
  import Seqs
  import FileHelpers
  import ProgressiveLoad
  import PolyfillHelpers

  /** The same identifier the runtime looks for. */
  const Identifier: string := ProgressiveLoad.SrcIdentifier

  /** `!img.match('-OptimusIMG-progressive')`: the pattern has no special characters, so this is a substring test. */
  predicate NotGenerated(path: string) {
    !Contains(path, Identifier)
  }

  /** The captures `(\.jpeg)`, `(\.jpg)`, `(\.png)` of one match; a group that did not take part is `undefined`. */
  function Captures(e: FileHelpers.ImageExtension): seq<Option<string>> {
    match e
    case Jpeg => [Some(".jpeg"), None, None]
    case Jpg => [None, Some(".jpg"), None]
    case Png => [None, None, Some(".png")]
  }

  /**
   * `s.split(IMAGE_REGEX)` from the piece starting at `p`, with the search
   * resumed at `q`: at each position the regex is tried; on a match the text
   * before it and the three captures are emitted and splitting restarts after
   * the match. The regex never matches the empty string.
   */
  function SplitPieces(s: string, p: nat, q: nat): (pieces: seq<Option<string>>)
    requires p <= q <= |s|
    ensures |pieces| >= 1 && pieces[|pieces| - 1].Some?
    decreases |s| - q
  {
    if q == |s| then [Some(s[p..])]
    else
      match FileHelpers.MatchAt(s, q)
      case None => SplitPieces(s, p, q + 1)
      case Some(e) =>
        var end := q + |FileHelpers.ExtensionText(e)|;
        [Some(s[p..q])] + Captures(e) + SplitPieces(s, end, end)
  }

  /** `.filter(val => val !== undefined && val !== '')`. */
  function DefinedPieces(pieces: seq<Option<string>>): (r: seq<string>)
    ensures |r| <= |pieces|
    ensures forall i :: 0 <= i < |r| ==> r[i] != "" && Some(r[i]) in pieces
  {
    if |pieces| == 0 then []
    else
      var rest := DefinedPieces(pieces[1..]);
      if pieces[0].Some? && pieces[0].value != "" then [pieces[0].value] + rest else rest
  }

  /**
   * `IMG_CONSTRUCT`. The captures hold exactly the matched text, so the
   * surviving pieces, none of them empty, spell the path again.
   */
  function Construct(path: string): (pieces: seq<string>)
    ensures Concat(pieces) == path
    ensures forall i :: 0 <= i < |pieces| ==> pieces[i] != ""
  {
    SplitCovers(path, 0, 0);
    DefinedPieces(SplitPieces(path, 0, 0))
  }

  /** The pieces written one after the other. */
  function Concat(pieces: seq<string>): string {
    if |pieces| == 0 then "" else pieces[0] + Concat(pieces[1..])
  }

  lemma {:induction false} ConcatAppend(a: seq<string>, b: seq<string>)
    ensures Concat(a + b) == Concat(a) + Concat(b)
  {
    if |a| > 0 {
      assert (a + b)[1..] == a[1..] + b;
      ConcatAppend(a[1..], b);
    } else {
      assert a + b == b;
    }
  }

  /** Splitting from `p`, searching from `q`, loses and adds nothing: the defined pieces spell `s[p..]`. */
  lemma {:induction false} SplitCovers(s: string, p: nat, q: nat)
    requires p <= q <= |s|
    ensures Concat(DefinedPieces(SplitPieces(s, p, q))) == s[p..]
    decreases |s| - q
  {
    if q == |s| {
      assert DefinedPieces([Some(s[p..])]) == if s[p..] == "" then [] else [s[p..]];
    } else {
      match FileHelpers.MatchAt(s, q)
      case None =>
        SplitCovers(s, p, q + 1);
      case Some(e) =>
        var text := FileHelpers.ExtensionText(e);
        var end := q + |text|;
        var rest := SplitPieces(s, end, end);
        MatchSpellsExtension(s, p, q, e);
        calc {
          Concat(DefinedPieces(SplitPieces(s, p, q)));
          { SplitAtMatch(s, p, q); }
          Concat(DefinedPieces([Some(s[p..q])] + Captures(e) + rest));
          { PiecesAroundMatch(s[p..q], e, rest); }
          s[p..q] + text + Concat(DefinedPieces(rest));
          { SplitCovers(s, end, end); }
          s[p..q] + text + s[end..];
        }
    }
  }

  /** At a match the split emits the text before it and the match's captures, and restarts after it. */
  lemma SplitAtMatch(s: string, p: nat, q: nat)
    requires p <= q < |s| && FileHelpers.MatchAt(s, q).Some?
    requires q + |FileHelpers.ExtensionText(FileHelpers.MatchAt(s, q).value)| <= |s|
    ensures var e := FileHelpers.MatchAt(s, q).value;
            var end := q + |FileHelpers.ExtensionText(e)|;
            SplitPieces(s, p, q) == [Some(s[p..q])] + Captures(e) + SplitPieces(s, end, end)
  {
  }

  /** Where the regex matches, the text there is the matched extension, so the text from `p` is cut in three there. */
  lemma MatchSpellsExtension(s: string, p: nat, q: nat, e: FileHelpers.ImageExtension)
    requires p <= q && FileHelpers.MatchAt(s, q) == Some(e)
    ensures var end := q + |FileHelpers.ExtensionText(e)|;
            end <= |s| && s[p..] == s[p..q] + FileHelpers.ExtensionText(e) + s[end..]
  {
    var text := FileHelpers.ExtensionText(e);
    assert OccursAt(s, text, q);
    assert s[p..] == s[p..q] + s[q..q + |text|] + s[q + |text|..];
  }

  /** The text before a match, the match's captures and the rest spell the three one after the other. */
  lemma PiecesAroundMatch(before: string, e: FileHelpers.ImageExtension, rest: seq<Option<string>>)
    ensures Concat(DefinedPieces([Some(before)] + Captures(e) + rest))
         == before + FileHelpers.ExtensionText(e) + Concat(DefinedPieces(rest))
  {
    var text := FileHelpers.ExtensionText(e);
    var head := [Some(before)];
    DefinedConcat(head + Captures(e), rest);
    DefinedConcat(head, Captures(e));
    CapturesDefineExtension(e);
    var front := DefinedPieces(head);
    assert front == if before == "" then [] else [before];
    assert Concat(front) == before;
    assert Concat([text]) == text;
    ConcatAppend(front + [text], DefinedPieces(rest));
    ConcatAppend(front, [text]);
  }

  /** Indexing past the end of a JavaScript array gives `undefined`, which concatenates as the text "undefined". */
  function PieceOr(pieces: seq<string>, i: nat): string {
    if i < |pieces| then pieces[i] else "undefined"
  }

  /** `IMAGE_NAME`: first piece, identifier, second piece. */
  function ProgressiveName(path: string): (name: string)
    ensures Contains(name, Identifier)
  {
    var c := Construct(path);
    var name := PieceOr(c, 0) + Identifier + PieceOr(c, 1);
    assert OccursAt(name, Identifier, |PieceOr(c, 0)|);
    name
  }

  /** Positions where the regex does not match are skipped without emitting a piece. */
  lemma {:induction false} SplitSkipsNonMatches(s: string, p: nat, q: nat, k: nat)
    requires p <= q <= k <= |s|
    requires forall j :: q <= j < k ==> FileHelpers.MatchAt(s, j).None?
    ensures SplitPieces(s, p, q) == SplitPieces(s, p, k)
    decreases k - q
  {
    if q < k {
      assert FileHelpers.MatchAt(s, q).None?;
      assert SplitPieces(s, p, q) == SplitPieces(s, p, q + 1);
      SplitSkipsNonMatches(s, p, q + 1, k);
    }
  }

  /**
   * A path whose only regex match is its final extension is named stem,
   * identifier, extension: `sample-1.jpg` gives `sample-1-OptimusIMG-progressive.jpg`.
   */
  lemma PlainPathName(stem: string, ext: FileHelpers.ImageExtension)
    requires stem != ""
    requires forall j :: 0 <= j < |stem| ==> FileHelpers.MatchAt(stem + FileHelpers.ExtensionText(ext), j).None?
    ensures ProgressiveName(stem + FileHelpers.ExtensionText(ext)) == stem + Identifier + FileHelpers.ExtensionText(ext)
  {
    SplitAtFinalExtension(stem, ext);
    var pieces := [Some(stem)] + Captures(ext) + [Some("")];
    DefinedConcat([Some(stem)] + Captures(ext), [Some("")]);
    DefinedConcat([Some(stem)], Captures(ext));
    assert DefinedPieces([Some("")]) == [];
    assert DefinedPieces([Some(stem)]) == [stem];
    CapturesDefineExtension(ext);
    assert Construct(stem + FileHelpers.ExtensionText(ext)) == [stem, FileHelpers.ExtensionText(ext)];
  }

  /** Splitting such a path gives the stem, the three captures of the extension, and an empty last piece. */
  lemma SplitAtFinalExtension(stem: string, ext: FileHelpers.ImageExtension)
    requires forall j :: 0 <= j < |stem| ==> FileHelpers.MatchAt(stem + FileHelpers.ExtensionText(ext), j).None?
    ensures SplitPieces(stem + FileHelpers.ExtensionText(ext), 0, 0) == [Some(stem)] + Captures(ext) + [Some("")]
  {
    var path := stem + FileHelpers.ExtensionText(ext);
    SplitSkipsNonMatches(path, 0, 0, |stem|);
    FinalExtensionMatches(stem, ext);
    SplitAtLastMatch(path, 0, |stem|, ext);
    assert path[0..|stem|] == stem;
  }

  /** A match that runs to the end of the text closes the split with an empty piece. */
  lemma SplitAtLastMatch(s: string, p: nat, q: nat, e: FileHelpers.ImageExtension)
    requires p <= q < |s| && FileHelpers.MatchAt(s, q) == Some(e)
    requires q + |FileHelpers.ExtensionText(e)| == |s|
    ensures SplitPieces(s, p, q) == [Some(s[p..q])] + Captures(e) + [Some("")]
  {
    assert s[|s|..] == "";
  }

  /** The regex matches the final extension of `stem + extension` right after the stem. */
  lemma FinalExtensionMatches(stem: string, ext: FileHelpers.ImageExtension)
    ensures FileHelpers.MatchAt(stem + FileHelpers.ExtensionText(ext), |stem|) == Some(ext)
  {
    var text := FileHelpers.ExtensionText(ext);
    var path := stem + text;
    var q := |stem|;
    assert path[q..q + |text|] == text;
    match ext
    case Jpeg =>
      assert OccursAt(path, ".jpeg", q);
    case Jpg =>
      assert !OccursAt(path, ".jpeg", q);
      assert OccursAt(path, ".jpg", q);
    case Png =>
      assert !OccursAt(path, ".jpeg", q);
      assert path[q..q + 4][1] == 'p';
      assert !OccursAt(path, ".jpg", q);
      assert OccursAt(path, ".png", q) && q + 4 == |path|;
  }

  lemma {:induction false} DefinedConcat(a: seq<Option<string>>, b: seq<Option<string>>)
    ensures DefinedPieces(a + b) == DefinedPieces(a) + DefinedPieces(b)
  {
    if |a| > 0 {
      assert (a + b)[1..] == a[1..] + b;
      DefinedConcat(a[1..], b);
    } else {
      assert a + b == b;
    }
  }

  /** Of the three captures of a match, exactly the one for the matched extension survives the filter. */
  lemma CapturesDefineExtension(ext: FileHelpers.ImageExtension)
    ensures DefinedPieces(Captures(ext)) == [FileHelpers.ExtensionText(ext)]
  {
    var c := Captures(ext);
    assert c[1..][1..][1..] == [];
    assert DefinedPieces(c[1..][1..][1..]) == [];
    assert DefinedPieces(c[1..][1..]) == DefinedPieces([c[2]]);
  }

  /** A path the regex does not match at all keeps its whole text as the first piece and gets "undefined" as the second. */
  lemma NoExtensionName(path: string)
    requires path != ""
    requires !FileHelpers.ImageRegexTest(path)
    ensures ProgressiveName(path) == path + Identifier + "undefined"
  {
    SplitSkipsNonMatches(path, 0, 0, |path|);
    assert path[0..] == path;
    assert DefinedPieces([Some(path)]) == [path];
  }

  /** A name produced by an earlier run is skipped by every later run. */
  lemma GeneratedNamesSkipped(paths: seq<string>, earlier: string)
    ensures ProgressiveName(earlier) !in Seqs.Filter(paths, NotGenerated)
  {
  }

  /** Adding the variants an earlier run wrote changes nothing about which files a later run prepares. */
  lemma {:induction false} SecondRunIgnoresVariants(found: seq<string>, variants: seq<string>)
    requires forall i :: 0 <= i < |variants| ==> exists x :: variants[i] == ProgressiveName(x)
    ensures Seqs.Filter(found + variants, NotGenerated) == Seqs.Filter(found, NotGenerated)
  {
    Seqs.FilterConcat(found, variants, NotGenerated);
    forall i | 0 <= i < |variants| ensures !NotGenerated(variants[i]) {
      var x :| variants[i] == ProgressiveName(x);
    }
    Seqs.FilterRejectsAll(variants, NotGenerated);
    assert Seqs.Filter(found, NotGenerated) + [] == Seqs.Filter(found, NotGenerated);
  }

  /**
   * The build step and the runtime agree: the page shows the generated
   * variant, and the high-resolution clone the runtime derives from it
   * points back at the original file.
   */
  lemma RuntimeRecoversOriginal(stem: string, ext: FileHelpers.ImageExtension, className: string)
    requires stem != "" && NotGenerated(stem)
    requires forall j :: 0 <= j < |stem| ==> FileHelpers.MatchAt(stem + FileHelpers.ExtensionText(ext), j).None?
    ensures var path := stem + FileHelpers.ExtensionText(ext);
            var clone := ProgressiveLoad.LoadProgressiveImage(ProgressiveLoad.Image(ProgressiveName(path), className, None));
            clone.Some? && clone.value.image.src == path
  {
    PlainPathName(stem, ext);
    ProgressiveLoad.HighResSource(stem, FileHelpers.ExtensionText(ext), className, None);
  }

  /** Whether `Jimp.read` of a path and `write` to a path succeed. */
  datatype Codec = Codec(readable: string -> bool, writable: string -> bool)

  /** What the callback returns for one file: `true` with the name it wrote, or `false` after logging the error. */
  datatype Outcome = Prepared(imageName: string) | Failed

  /** The per-file callback: read, then write the variant; any failure is caught and gives `Failed`. */
  function ProcessFile(codec: Codec, path: string): (r: Outcome)
    ensures r.Prepared? <==> codec.readable(path) && codec.writable(ProgressiveName(path))
    ensures r.Prepared? ==> r.imageName == ProgressiveName(path) && !NotGenerated(r.imageName)
  {
    if !codec.readable(path) then Failed
    else
      var name := ProgressiveName(path);
      if codec.writable(name) then Prepared(name) else Failed
  }

  /** The callback handed to `asyncForEach`, collecting each file's outcome. */
  function AppendOutcome(codec: Codec): (seq<Outcome>, string, nat, seq<string>) -> seq<Outcome> {
    PolyfillHelpers.Collect((img: string) => ProcessFile(codec, img))
  }

  /** After the first `n` calls, the outcomes are those of the first `n` files, in order, whatever happened to earlier files. */
  lemma OutcomesInOrder(codec: Codec, images: seq<string>, n: nat)
    requires n <= |images|
    ensures var done := PolyfillHelpers.RunSequentially(AppendOutcome(codec), [], images, n);
            |done| == n && forall j :: 0 <= j < n ==> done[j] == ProcessFile(codec, images[j])
  {
    PolyfillHelpers.CollectInOrder((img: string) => ProcessFile(codec, img), images, n);
  }

  /**
   * `prepareProgressiveImages` on the files `found` under the chosen folder:
   * every file that is not a variant is processed once, in order, a failure
   * affects only its own file, and the whole run reports success.
   */
  method PrepareProgressiveImages(codec: Codec, found: seq<string>) returns (ok: bool, outcomes: seq<Outcome>)
    ensures ok
    ensures var images := Seqs.Filter(found, NotGenerated);
            |outcomes| == |images| && forall j :: 0 <= j < |images| ==> outcomes[j] == ProcessFile(codec, images[j])
  {
    var images := Seqs.Filter(found, NotGenerated);
    var calls;
    outcomes, calls := PolyfillHelpers.AsyncForEach(images, AppendOutcome(codec), []);
    OutcomesInOrder(codec, images, |images|);
    ok := true;
  }
}
