/**
 * `HtmlElementsHelpers`: checks that an image's `srcset` and `sizes`
 * attributes describe more than one candidate, each in the expected format.
 */
module HtmlElementsHelpers {
  import opened Text

  datatype AttributeName = Srcset | Sizes
  datatype FaultKind = Missing | ValueFormat | OneSizeOnly
  datatype Fault = Fault(attributeName: AttributeName, fault: FaultKind)

  /** What one attribute check returns: `'valid'` or a fault. */
  datatype Validity = Valid | Invalid(fault: Fault)

  /** `{valid}` or `{valid: false, faults}`. */
  datatype Responsiveness = Responsiveness(valid: bool, faults: seq<Fault>)

  /** The two attributes of an `<img>` or `<source>` the checks read. */
  datatype ImageSource = ImageSource(srcset: string, sizes: string)

  /** The units `(px)|(em)|(rem)|(vw)` of the `sizes` pattern. */
  const Units: seq<string> := ["px", "em", "rem", "vw"]

  /**
   * Some white-space character is followed by nothing but digits up to
   * `end`, with at least one digit when `atLeastOne`: the `\s\d*` or `\s\d+`
   * part of both patterns. What precedes it is matched by `.*`, which may be
   * empty since the pattern is not anchored at the start.
   */
  ghost predicate WhitespaceThenDigits(s: string, end: int, atLeastOne: bool)
    requires 0 <= end <= |s|
  {
    exists w :: 0 <= w < end && (atLeastOne ==> w + 1 < end) && IsWhitespace(s[w]) && AllDigits(s[w + 1..end])
  }

  /** `/.*\s\d*[xw]{1}$/.test(piece)`. */
  ghost predicate SrcsetPattern(piece: string) {
    |piece| >= 1 && (piece[|piece| - 1] == 'x' || piece[|piece| - 1] == 'w')
    && WhitespaceThenDigits(piece, |piece| - 1, false)
  }

  /** `/.*\s\d+((px)|(em)|(rem)|(vw)){1}$/.test(piece)`. */
  ghost predicate SizesPattern(piece: string) {
    exists u :: 0 <= u < |Units| && EndsWith(piece, Units[u]) && WhitespaceThenDigits(piece, |piece| - |Units[u]|, true)
  }

  /** Where the run of digits that ends at `end` starts. */
  function DigitRunStart(s: string, end: nat): (k: nat)
    requires end <= |s|
    ensures k <= end && AllDigits(s[k..end])
    ensures k == 0 || !IsDigit(s[k - 1])
  {
    if end == 0 || !IsDigit(s[end - 1]) then end
    else
      var k := DigitRunStart(s, end - 1);
      assert s[k..end] == s[k..end - 1] + [s[end - 1]];
      k
  }

  /** The white space before the digits can only sit right before the maximal run of digits. */
  lemma WhitespaceBeforeDigitRun(s: string, end: nat, atLeastOne: bool)
    requires end <= |s|
    ensures var k := DigitRunStart(s, end);
            WhitespaceThenDigits(s, end, atLeastOne) <==> 1 <= k && IsWhitespace(s[k - 1]) && (atLeastOne ==> k < end)
  {
    var k := DigitRunStart(s, end);
    if WhitespaceThenDigits(s, end, atLeastOne) {
      var w :| 0 <= w < end && (atLeastOne ==> w + 1 < end) && IsWhitespace(s[w]) && AllDigits(s[w + 1..end]);
      DigitRunStartsAfter(s, end, w);
    }
    if 1 <= k && IsWhitespace(s[k - 1]) && (atLeastOne ==> k < end) {
      assert s[k - 1 + 1..end] == s[k..end];
    }
  }

  /** A run of digits preceded by a non-digit starts right after it. */
  lemma {:induction false} DigitRunStartsAfter(s: string, end: nat, w: nat)
    requires w < end <= |s|
    requires !IsDigit(s[w]) && AllDigits(s[w + 1..end])
    ensures DigitRunStart(s, end) == w + 1
    decreases end
  {
    if end > w + 1 {
      var run := s[w + 1..end];
      assert IsDigit(s[end - 1]) by {
        assert s[end - 1] == run[|run| - 1];
      }
      var shorter := s[w + 1..end - 1];
      forall i | 0 <= i < |shorter|
        ensures IsDigit(shorter[i])
      {
        assert shorter[i] == run[i];
      }
      DigitRunStartsAfter(s, end - 1, w);
    }
  }

  /** One comma piece of `srcset` in the expected format. */
  function SrcsetPieceOk(piece: string): (ok: bool)
    ensures ok <==> SrcsetPattern(piece)
  {
    if |piece| == 0 || (piece[|piece| - 1] != 'x' && piece[|piece| - 1] != 'w') then false
    else
      var k := DigitRunStart(piece, |piece| - 1);
      WhitespaceBeforeDigitRun(piece, |piece| - 1, false);
      1 <= k && IsWhitespace(piece[k - 1])
  }

  /** One comma piece of `sizes` in the expected format. */
  function SizesPieceOk(piece: string): (ok: bool)
    ensures ok <==> SizesPattern(piece)
  {
    UnitOk(piece, 0)
  }

  /** The pattern with one particular unit. */
  function UnitMatches(piece: string, unit: string): (ok: bool)
    requires |unit| <= |piece| || !EndsWith(piece, unit)
    ensures ok <==> EndsWith(piece, unit) && WhitespaceThenDigits(piece, |piece| - |unit|, true)
  {
    if !EndsWith(piece, unit) then false
    else
      var end := |piece| - |unit|;
      var k := DigitRunStart(piece, end);
      WhitespaceBeforeDigitRun(piece, end, true);
      1 <= k && k < end && IsWhitespace(piece[k - 1])
  }

  /** The pattern with one of the units from index `u` on. */
  function UnitOk(piece: string, u: nat): (ok: bool)
    requires u <= |Units|
    ensures ok <==> exists v :: u <= v < |Units| && EndsWith(piece, Units[v]) && WhitespaceThenDigits(piece, |piece| - |Units[v]|, true)
    decreases |Units| - u
  {
    if u == |Units| then false
    else UnitMatches(piece, Units[u]) || UnitOk(piece, u + 1)
  }

  /** An empty piece, such as the one after a trailing comma, passes neither pattern: both need a white-space character. */
  lemma EmptyPieceFailsBoth()
    ensures !SrcsetPieceOk("") && !SizesPieceOk("")
  {
  }

  /** The regular expression each piece of the attribute must match. */
  ghost predicate Pattern(name: AttributeName, piece: string) {
    match name
    case Srcset => SrcsetPattern(piece)
    case Sizes => SizesPattern(piece)
  }

  /** The per-piece test of the attribute. */
  function PieceOk(name: AttributeName, piece: string): (ok: bool)
    ensures ok <==> Pattern(name, piece)
  {
    match name
    case Srcset => SrcsetPieceOk(piece)
    case Sizes => SizesPieceOk(piece)
  }

  /** `.some(piece => !REGEX.test(piece))`. */
  predicate SomePieceFails(pieces: seq<string>, name: AttributeName) {
    exists i :: 0 <= i < |pieces| && !PieceOk(name, pieces[i])
  }

  /**
   * The shared shape of both checks: empty is `missing`, a single piece is
   * `one_size_only`, and only then is every piece matched against the
   * pattern.
   */
  function CheckAttribute(name: AttributeName, value: string): (r: Validity)
    ensures r.Invalid? ==> r.fault.attributeName == name
    ensures r.Invalid? && r.fault.fault == Missing <==> value == ""
    ensures r.Invalid? && r.fault.fault == OneSizeOnly <==> value != "" && ',' !in value
    ensures r.Invalid? && r.fault.fault == ValueFormat <==>
              ',' in value && exists i :: 0 <= i < |Split(value, ',')| && !Pattern(name, Split(value, ',')[i])
    ensures r == Valid <==> ',' in value && forall i :: 0 <= i < |Split(value, ',')| ==> Pattern(name, Split(value, ',')[i])
  {
    SplitSinglePiece(value, ',');
    if |value| == 0 then Invalid(Fault(name, Missing))
    else if |Split(value, ',')| == 1 then Invalid(Fault(name, OneSizeOnly))
    else if SomePieceFails(Split(value, ','), name) then Invalid(Fault(name, ValueFormat))
    else Valid
  }

  /** `checkImageSourceSRCSET`. */
  function CheckSrcset(srcset: string): (r: Validity)
    ensures r.Invalid? ==> r.fault.attributeName == Srcset
    ensures r == Valid ==> ',' in srcset && forall i :: 0 <= i < |Split(srcset, ',')| ==> SrcsetPattern(Split(srcset, ',')[i])
    ensures ',' in srcset && (forall i :: 0 <= i < |Split(srcset, ',')| ==> SrcsetPattern(Split(srcset, ',')[i])) ==> r == Valid
  {
    CheckAttribute(Srcset, srcset)
  }

  /** `checkImageSourceSIZES`. */
  function CheckSizes(sizes: string): (r: Validity)
    ensures r.Invalid? ==> r.fault.attributeName == Sizes
    ensures r == Valid ==> ',' in sizes && forall i :: 0 <= i < |Split(sizes, ',')| ==> SizesPattern(Split(sizes, ',')[i])
    ensures ',' in sizes && (forall i :: 0 <= i < |Split(sizes, ',')| ==> SizesPattern(Split(sizes, ',')[i])) ==> r == Valid
  {
    CheckAttribute(Sizes, sizes)
  }

  /** A trailing comma always makes the value badly formatted, whatever comes before it. */
  lemma {:induction false} TrailingCommaIsValueFormat(name: AttributeName, value: string)
    ensures CheckAttribute(name, value + [',']) == Invalid(Fault(name, ValueFormat))
  {
    EmptyPieceFailsBoth();
    var v := value + [','];
    SplitTrailingSeparator(value, ',');
    assert v[|value|] == ',';
    var pieces := Split(v, ',');
    assert pieces[|pieces| - 1] == "";
  }

  /**
   * `imageSourceResponsiveness`: valid exactly when both attributes are,
   * and otherwise the `srcset` fault (if any) listed before the `sizes`
   * fault (if any).
   */
  function ImageSourceResponsiveness(image: ImageSource): (r: Responsiveness)
    ensures r.valid <==> CheckSrcset(image.srcset) == Valid && CheckSizes(image.sizes) == Valid
    ensures r.valid ==> r.faults == []
    ensures |r.faults| <= 2
    ensures forall i :: 0 <= i < |r.faults| ==>
              Invalid(r.faults[i]) == (if r.faults[i].attributeName == Srcset then CheckSrcset(image.srcset) else CheckSizes(image.sizes))
    ensures forall i, j :: 0 <= i < j < |r.faults| ==> r.faults[i].attributeName == Srcset && r.faults[j].attributeName == Sizes
    ensures CheckSrcset(image.srcset).Invalid? ==> Fault(Srcset, CheckSrcset(image.srcset).fault.fault) in r.faults
    ensures CheckSizes(image.sizes).Invalid? ==> Fault(Sizes, CheckSizes(image.sizes).fault.fault) in r.faults
  {
    var srcset := CheckSrcset(image.srcset);
    var sizes := CheckSizes(image.sizes);
    var faults := (if srcset.Invalid? then [srcset.fault] else []) + (if sizes.Invalid? then [sizes.fault] else []);
    if |faults| == 0 then Responsiveness(true, []) else Responsiveness(false, faults)
  }
}
