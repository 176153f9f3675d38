/** The string handling of the gene/variant table editor (extraGeneVariantData.js):
    the digit-only input filter, JavaScript's parseInt and number-to-text conversion,
    index extraction from class names and element ids, the rewriting of index
    placeholders in new rows, and the parenthesised count in a variant header. */
module GeneVariantText {
  import opened Common

  // ---------------------------------------------------------------------------
  // Characters

  predicate IsDigit(c: char) { '0' <= c <= '9' }

  predicate AllDigits(s: string) { forall i :: 0 <= i < |s| ==> IsDigit(s[i]) }

  /** The characters JavaScript's `.` refuses to match. */
  predicate IsLineTerminator(c: char) {
    c == '\n' || c == '\r' || c == '\U{2028}' || c == '\U{2029}'
  }

  /** The characters parseInt skips before the number (white space and line terminators). */
  predicate IsJsWhiteSpace(c: char) {
    c == ' ' || c == '\t' || c == '\U{000B}' || c == '\U{000C}' || c == '\U{00A0}'
    || c == '\U{FEFF}' || c == '\U{1680}' || ('\U{2000}' <= c <= '\U{200A}')
    || c == '\U{202F}' || c == '\U{205F}' || c == '\U{3000}' || IsLineTerminator(c)
  }

  // ---------------------------------------------------------------------------
  // The numeric-input filter: value.replace(/[^\d]/g, '')

  function DigitsOnly(s: string): (r: string)
    ensures AllDigits(r)
    ensures |r| <= |s|
  {
    if s == [] then []
    else (if IsDigit(s[0]) then [s[0]] else []) + DigitsOnly(s[1..])
  }

  /** Text made only of digits passes the filter unchanged. */
  lemma {:induction false} DigitsOnlyKeepsDigitText(s: string)
    requires AllDigits(s)
    ensures DigitsOnly(s) == s
  {
    if s != [] {
      DigitsOnlyKeepsDigitText(s[1..]);
    }
  }

  /** Filtering twice is filtering once. */
  lemma DigitsOnlyIdempotent(s: string)
    ensures DigitsOnly(DigitsOnly(s)) == DigitsOnly(s)
  {
    DigitsOnlyKeepsDigitText(DigitsOnly(s));
  }

  /** The filter works character by character: the digits of a text come out in
      their original order, each non-digit is dropped. */
  lemma {:induction false} DigitsOnlyConcat(a: string, b: string)
    ensures DigitsOnly(a + b) == DigitsOnly(a) + DigitsOnly(b)
  {
    if a == [] {
      assert a + b == b;
    } else {
      DigitsOnlyCons(a, b);
      DigitsOnlyConcat(a[1..], b);
      AppendAssoc(if IsDigit(a[0]) then [a[0]] else [], DigitsOnly(a[1..]), DigitsOnly(b));
    }
  }

  lemma DigitsOnlyCons(a: string, b: string)
    requires a != []
    ensures DigitsOnly(a + b) == (if IsDigit(a[0]) then [a[0]] else []) + DigitsOnly(a[1..] + b)
  {
    assert (a + b)[1..] == a[1..] + b;
  }

  // ---------------------------------------------------------------------------
  // Decimal text of numbers

  function DigitChar(d: nat): (c: char)
    requires d < 10
    ensures IsDigit(c)
  {
    ('0' as int + d) as char
  }

  /** The value of a digit character (meaningful for digits only). */
  function DigitValue(c: char): int {
    c as int - '0' as int
  }

  /** How JavaScript writes a non-negative integer below 10^21 (the indices and counts
      the editor produces); larger numbers are not modelled. */
  function NatToString(n: nat): (s: string)
    ensures s != [] && AllDigits(s)
  {
    if n < 10 then [DigitChar(n)] else NatToString(n / 10) + [DigitChar(n % 10)]
  }

  /** The value of a run of decimal digits. */
  function DigitsValue(d: string): int {
    if d == [] then 0 else DigitsValue(d[..|d| - 1]) * 10 + DigitValue(d[|d| - 1])
  }

  lemma {:induction false} DigitsValueNatural(d: string)
    requires AllDigits(d)
    ensures DigitsValue(d) >= 0
  {
    if d != [] {
      DigitsValueNatural(d[..|d| - 1]);
    }
  }

  lemma {:induction false} DigitsValueOfNatToString(n: nat)
    ensures DigitsValue(NatToString(n)) == n
  {
    if n >= 10 {
      var s := NatToString(n);
      assert s[..|s| - 1] == NatToString(n / 10);
      DigitsValueOfNatToString(n / 10);
    }
  }

  /** How JavaScript writes the result of parseInt: `None` (NaN) is written "NaN". */
  function NumberText(v: Option<int>): string {
    match v
    case None => "NaN"
    case Some(n) => if n < 0 then "-" + NatToString(-n) else NatToString(n)
  }

  // ---------------------------------------------------------------------------
  // parseInt(s, 10); `None` stands for NaN

  function TrimStart(s: string): string {
    if s != [] && IsJsWhiteSpace(s[0]) then TrimStart(s[1..]) else s
  }

  /** Trimming drops leading white space only: what is left is a suffix of the text and
      does not start with white space. */
  lemma {:induction false} TrimStartIsSuffix(s: string)
    ensures |TrimStart(s)| <= |s| && TrimStart(s) == s[|s| - |TrimStart(s)|..]
    ensures TrimStart(s) == [] || !IsJsWhiteSpace(TrimStart(s)[0])
  {
    if s != [] && IsJsWhiteSpace(s[0]) {
      TrimStartIsSuffix(s[1..]);
    }
  }

  /** The longest prefix of `s` made of digits. */
  function LeadingDigits(s: string): (d: string)
    ensures AllDigits(d) && d <= s
  {
    if s != [] && IsDigit(s[0]) then [s[0]] + LeadingDigits(s[1..]) else []
  }

  /** The leading digits stop at the first non-digit of the text. */
  lemma {:induction false} LeadingDigitsSpec(s: string)
    ensures |LeadingDigits(s)| == |s| || !IsDigit(s[|LeadingDigits(s)|])
  {
    if s != [] && IsDigit(s[0]) {
      LeadingDigitsSpec(s[1..]);
    }
  }

  function ParseInt(s: string): Option<int> {
    var t := TrimStart(s);
    var digits := LeadingDigits(SignlessPart(t));
    var magnitude := DigitsValue(digits);
    if digits == [] then None
    else if t[0] == '-' then Some(-magnitude)
    else Some(magnitude)
  }

  function SignlessPart(t: string): string {
    if t != [] && (t[0] == '-' || t[0] == '+') then t[1..] else t
  }

  lemma {:induction false} LeadingDigitsOfDigitsThen(d: string, rest: string)
    requires AllDigits(d)
    requires rest == [] || !IsDigit(rest[0])
    ensures LeadingDigits(d + rest) == d
  {
    if d != [] {
      assert (d + rest)[1..] == d[1..] + rest;
      LeadingDigitsOfDigitsThen(d[1..], rest);
    }
  }

  /** parseInt reads back what NatToString writes. */
  lemma ParseIntOfNatToString(n: nat)
    ensures ParseInt(NatToString(n)) == Some(n)
  {
    var s := NatToString(n);
    assert TrimStart(s) == s;
    assert SignlessPart(s) == s;
    LeadingDigitsOfDigitsThen(s, []);
    assert s + [] == s;
    DigitsValueOfNatToString(n);
  }

  /** A text without a minus sign never parses to a negative number. */
  lemma ParseIntWithoutMinusIsNatural(s: string)
    requires '-' !in s
    ensures ParseInt(s).Some? ==> ParseInt(s).value >= 0
  {
    var t := TrimStart(s);
    TrimStartIsSuffix(s);
    DigitsValueNatural(LeadingDigits(SignlessPart(t)));
    if t != [] {
      assert t[0] == s[|s| - |t|];
    }
  }

  // ---------------------------------------------------------------------------
  // String.prototype.indexOf, lastIndexOf and substring

  function IndexOf(s: string, c: char): (r: int)
    ensures -1 <= r < |s|
    ensures r >= 0 ==> s[r] == c
    ensures forall j :: 0 <= j < |s| && (r == -1 || j < r) ==> s[j] != c
  {
    if s == [] then -1
    else if s[0] == c then 0
    else
      var k := IndexOf(s[1..], c);
      if k == -1 then -1 else k + 1
  }

  function LastIndexOf(s: string, c: char): int {
    if s == [] then -1
    else if s[|s| - 1] == c then |s| - 1
    else LastIndexOf(s[..|s| - 1], c)
  }

  /** lastIndexOf finds the last occurrence, or -1 when there is none. */
  lemma {:induction false} LastIndexOfSpec(s: string, c: char)
    ensures -1 <= LastIndexOf(s, c) < |s|
    ensures LastIndexOf(s, c) >= 0 ==> s[LastIndexOf(s, c)] == c
    ensures forall j :: LastIndexOf(s, c) < j < |s| ==> s[j] != c
  {
    if s != [] && s[|s| - 1] != c {
      LastIndexOfSpec(s[..|s| - 1], c);
    }
  }

  lemma IndexOfAt(s: string, c: char, k: nat)
    requires k < |s| && s[k] == c
    requires forall j :: 0 <= j < k ==> s[j] != c
    ensures IndexOf(s, c) == k
  {
  }

  lemma {:induction false} LastIndexOfAt(s: string, c: char, k: nat)
    requires k < |s| && s[k] == c
    requires forall j :: k < j < |s| ==> s[j] != c
    ensures LastIndexOf(s, c) == k
  {
    if k < |s| - 1 {
      var init := s[..|s| - 1];
      assert forall j :: k < j < |init| ==> init[j] == s[j];
      LastIndexOfAt(init, c, k);
    }
  }

  function Clamp(i: int, len: nat): (r: nat)
    ensures r <= len
  {
    if i < 0 then 0 else if i > len then len else i
  }

  /** String.prototype.substring: both ends are clamped to the text and swapped when reversed. */
  function JsSubstring(s: string, start: int, end: int): string {
    var a := Clamp(start, |s|);
    var b := Clamp(end, |s|);
    if a <= b then s[a..b] else s[b..a]
  }

  // ---------------------------------------------------------------------------
  // Index extraction

  /** className.substring(className.lastIndexOf('-') + 1): the index a class name ends with. */
  function SuffixAfterLastDash(s: string): string {
    JsSubstring(s, LastIndexOf(s, '-') + 1, |s|)
  }

  /** The suffix is what follows the last '-': it ends the text, has no '-', and is the
      whole text when there is no '-'. */
  lemma SuffixAfterLastDashSpec(s: string)
    ensures var r := SuffixAfterLastDash(s);
            && |r| <= |s| && r == s[|s| - |r|..]
            && (forall j :: 0 <= j < |r| ==> r[j] != '-')
            && (|r| == |s| || s[|s| - |r| - 1] == '-')
  {
    LastIndexOfSpec(s, '-');
    var k := LastIndexOf(s, '-');
    assert SuffixAfterLastDash(s) == s[k + 1..];
  }

  /** id.substring(id.indexOf('_') + 1, id.lastIndexOf('_')): the variant index in an
      element id of the form `<class>_<index>_<suffix>`. */
  function VariantIndexFromId(id: string): string {
    JsSubstring(id, IndexOf(id, '_') + 1, LastIndexOf(id, '_'))
  }

  /** The id the editor gives a variant's edit button. */
  function EditButtonId(variantClassName: string, variantIndex: string): string {
    variantClassName + "_" + variantIndex + "_edit"
  }

  /** The id the editor gives a variant's edit-done button. */
  function EditDoneButtonId(variantClassName: string, variantIndex: string): string {
    variantClassName + "_" + variantIndex + "_editDone"
  }

  /** The text between the first and the last underscore is recovered, provided the class
      name, the index and the trailing word contain no underscore. */
  lemma VariantIndexFromIdParts(cls: string, index: string, tail: string)
    requires '_' !in cls && '_' !in index && '_' !in tail
    ensures VariantIndexFromId(cls + "_" + index + "_" + tail) == index
  {
    var id := cls + "_" + index + "_" + tail;
    assert id[..|cls|] == cls;
    IndexOfAt(id, '_', |cls|);
    assert id[|cls| + |index| + 2..] == tail;
    LastIndexOfAt(id, '_', |cls| + 1 + |index|);
    assert id[|cls| + 1..|cls| + 1 + |index|] == index;
  }

  /** The edit and edit-done handlers recover the index their button was created with. */
  lemma ButtonIdsRoundTrip(variantClassName: string, variantIndex: string)
    requires '_' !in variantClassName && '_' !in variantIndex
    ensures VariantIndexFromId(EditButtonId(variantClassName, variantIndex)) == variantIndex
    ensures VariantIndexFromId(EditDoneButtonId(variantClassName, variantIndex)) == variantIndex
  {
    VariantIndexFromIdParts(variantClassName, variantIndex, "edit");
    assert EditButtonId(variantClassName, variantIndex) == variantClassName + "_" + variantIndex + "_" + "edit";
    VariantIndexFromIdParts(variantClassName, variantIndex, "editDone");
    assert EditDoneButtonId(variantClassName, variantIndex) == variantClassName + "_" + variantIndex + "_" + "editDone";
  }

  /** An id without any underscore yields the empty text; one with a single underscore
      yields that underscore (substring swaps its reversed bounds). */
  lemma VariantIndexFromIdDegenerate(id: string)
    ensures '_' !in id ==> VariantIndexFromId(id) == ""
    ensures forall k :: 0 <= k < |id| && id[k] == '_' && '_' !in id[..k] && '_' !in id[k + 1..] ==>
              VariantIndexFromId(id) == "_"
  {
    LastIndexOfSpec(id, '_');
    forall k | 0 <= k < |id| && id[k] == '_' && '_' !in id[..k] && '_' !in id[k + 1..]
      ensures VariantIndexFromId(id) == "_"
    {
      IndexOfAt(id, '_', k);
      LastIndexOfAt(id, '_', k);
    }
  }

  /** The gene and variant class names encoded in a table id `...-<geneClass>_<variantClass>`. */
  function ClassNamesFromTableId(id: string): (string, string) {
    var classes := SuffixAfterLastDash(id);
    var cut := LastIndexOf(classes, '_');
    (JsSubstring(classes, 0, cut), JsSubstring(classes, cut + 1, |classes|))
  }

  /** The suffix after the last dash of `prefix-rest` is `rest`, when `rest` has no dash. */
  lemma SuffixAfterLastDashOf(prefix: string, rest: string)
    requires '-' !in rest
    ensures SuffixAfterLastDash(prefix + "-" + rest) == rest
  {
    var id := prefix + "-" + rest;
    assert id[|prefix| + 1..] == rest;
    forall j | |prefix| < j < |id|
      ensures id[j] != '-'
    {
      assert id[j] == rest[j - |prefix| - 1];
      assert rest[j - |prefix| - 1] in rest;
    }
    LastIndexOfAt(id, '-', |prefix|);
  }

  /** Splitting `left_right` at its last underscore gives back both parts. */
  lemma SplitAtLastUnderscore(left: string, right: string)
    requires '_' !in right
    ensures var s := left + "_" + right;
            var cut := LastIndexOf(s, '_');
            JsSubstring(s, 0, cut) == left && JsSubstring(s, cut + 1, |s|) == right
  {
    var s := left + "_" + right;
    assert s[|left| + 1..] == right;
    assert forall j :: |left| < j < |s| ==> s[j] == right[j - |left| - 1];
    LastIndexOfAt(s, '_', |left|);
    assert s[..|left|] == left;
    assert JsSubstring(s, 0, |left|) == s[..|left|];
    assert JsSubstring(s, |left| + 1, |s|) == s[|left| + 1..];
  }

  /** The class names the table id was built from are recovered. */
  lemma ClassNamesFromTableIdParts(prefix: string, geneClass: string, variantClass: string)
    requires '-' !in geneClass && '-' !in variantClass && '_' !in variantClass
    ensures ClassNamesFromTableId(prefix + "-" + geneClass + "_" + variantClass) == (geneClass, variantClass)
  {
    var classes := geneClass + "_" + variantClass;
    assert prefix + "-" + geneClass + "_" + variantClass == prefix + "-" + classes;
    assert '-' !in classes by {
      forall k | 0 <= k < |classes| ensures classes[k] != '-' {
        if k < |geneClass| { assert classes[k] == geneClass[k]; }
        else if k > |geneClass| { assert classes[k] == variantClass[k - |geneClass| - 1]; }
      }
    }
    SuffixAfterLastDashOf(prefix, classes);
    SplitAtLastUnderscore(geneClass, variantClass);
  }

  /** Whether a `classname=` parameter with a non-empty value starts at position `i`. */
  predicate ClassNameParamAt(href: string, i: int) {
    0 <= i && i + 11 <= |href| && href[i..i + 10] == "classname=" && href[i + 10] != '&'
  }

  /** The `classname=` parameter of an add-variant link: /classname=([^&]+)/.exec(href),
      the value of the first match. */
  function ClassNameFromHref(href: string): (r: Option<string>)
    ensures r.Some? ==> r.value != [] && '&' !in r.value
    ensures r.None? <==> forall i :: !ClassNameParamAt(href, i)
  {
    if ClassNameParamAt(href, 0) then
      Some(NonAmpersandPrefix(href[10..]))
    else if href == [] then None
    else
      var r := ClassNameFromHref(href[1..]);
      ClassNameParamAtShift(href);
      r
  }

  lemma ClassNameParamAtShift(href: string)
    requires href != []
    requires !ClassNameParamAt(href, 0)
    ensures (forall i :: !ClassNameParamAt(href, i)) <==> (forall i :: !ClassNameParamAt(href[1..], i))
  {
    forall i | 0 <= i ensures ClassNameParamAt(href[1..], i) ==> ClassNameParamAt(href, i + 1) {
      if ClassNameParamAt(href[1..], i) {
        assert href[1..][i..i + 10] == href[i + 1..i + 11];
      }
    }
    forall i | 1 <= i
      ensures ClassNameParamAt(href, i) <==> ClassNameParamAt(href[1..], i - 1)
    {
      if i + 11 <= |href| {
        assert href[1..][i - 1..i + 9] == href[i..i + 10];
        assert href[1..][i + 9] == href[i + 10];
      }
    }
  }

  function NonAmpersandPrefix(s: string): (r: string)
    ensures r <= s && '&' !in r
    ensures s != [] && s[0] != '&' ==> r != []
  {
    if s != [] && s[0] != '&' then [s[0]] + NonAmpersandPrefix(s[1..]) else []
  }

  // ---------------------------------------------------------------------------
  // Placeholder rewriting in new rows.
  // Gene rows: row.replace(/_\d+_|=\d+&/g, ...).
  // Variant rows: row.replace(/_\d+_|=\d+&|\$\{object.xWikiClass.name\}|\$\{object.number\}/g, ...).

  /** A placeholder the regular expression can match; the single characters are what
      the unescaped `.` of the pattern matched. */
  datatype Placeholder =
    | IndexUnderscores(digits: string)    // _<digits>_
    | IndexParameter(digits: string)      // =<digits>&
    | ClassNameRef(dot1: char, dot2: char)  // ${object.xWikiClass.name}
    | NumberRef(dot: char)                // ${object.number}

  function PlaceholderText(p: Placeholder): string {
    match p
    case IndexUnderscores(d) => "_" + d + "_"
    case IndexParameter(d) => "=" + d + "&"
    case ClassNameRef(a, b) => ObjectOpen + [a] + ClassNameMiddle + [b] + ClassNameClose
    case NumberRef(a) => ObjectOpen + [a] + NumberClose
  }

  const ObjectOpen: string := "${object"
  const ClassNameMiddle: string := "xWikiClass"
  const ClassNameClose: string := "name}"
  const NumberClose: string := "number}"

  /** Which template a row comes from: gene rows only rewrite index placeholders,
      variant rows also the two object references. */
  datatype Template = GeneTemplate | VariantTemplate(variantClassName: string)

  /** `_<digits>_` or `=<digits>&` at the start of `s`: `\d+` is greedy, and a shorter
      run of digits cannot be followed by the closing character, so the run is maximal. */
  function IndexMarkerAt(s: string): (r: Option<Placeholder>)
    ensures r.Some? ==> (r.value.IndexUnderscores? || r.value.IndexParameter?)
                        && r.value.digits != [] && AllDigits(r.value.digits)
                        && |PlaceholderText(r.value)| <= |s|
                        && s[..|PlaceholderText(r.value)|] == PlaceholderText(r.value)
  {
    if s == [] || (s[0] != '_' && s[0] != '=') then None
    else
      var d := LeadingDigits(s[1..]);
      var close := if s[0] == '_' then '_' else '&';
      if d != [] && 1 + |d| < |s| && s[1 + |d|] == close then
        assert s[1..1 + |d|] == d;
        assert s[..|d| + 2] == [s[0]] + d + [close];
        Some(if s[0] == '_' then IndexUnderscores(d) else IndexParameter(d))
      else None
  }

  /** `${object.xWikiClass.name}` or `${object.number}` at the start of `s`. */
  function ObjectMarkerAt(s: string): (r: Option<Placeholder>)
    ensures r.Some? ==> (r.value.ClassNameRef? || r.value.NumberRef?)
                        && |PlaceholderText(r.value)| <= |s|
                        && s[..|PlaceholderText(r.value)|] == PlaceholderText(r.value)
  {
    if |s| >= 25 && s[..8] == ObjectOpen && !IsLineTerminator(s[8])
      && s[9..19] == ClassNameMiddle && !IsLineTerminator(s[19]) && s[20..25] == ClassNameClose then
      assert s[..25] == s[..8] + [s[8]] + s[9..19] + [s[19]] + s[20..25];
      Some(ClassNameRef(s[8], s[19]))
    else if |s| >= 16 && s[..8] == ObjectOpen && !IsLineTerminator(s[8]) && s[9..16] == NumberClose then
      assert s[..16] == s[..8] + [s[8]] + s[9..16];
      Some(NumberRef(s[8]))
    else None
  }

  /** The placeholder the pattern matches at the start of `s`, if any; the alternatives
      begin with different characters, so at most one of them matches. */
  function MarkerAt(s: string, t: Template): Option<Placeholder> {
    if s != [] && (s[0] == '_' || s[0] == '=') then IndexMarkerAt(s)
    else if s != [] && s[0] == '$' && t.VariantTemplate? then ObjectMarkerAt(s)
    else None
  }

  /** A matched placeholder is a non-empty prefix of the text, and a gene row only
      matches index placeholders. */
  lemma MarkerAtSpec(s: string, t: Template)
    ensures MarkerAt(s, t).Some? ==>
              0 < |PlaceholderText(MarkerAt(s, t).value)| <= |s|
              && s[..|PlaceholderText(MarkerAt(s, t).value)|] == PlaceholderText(MarkerAt(s, t).value)
    ensures t.GeneTemplate? && MarkerAt(s, t).Some? ==>
              (MarkerAt(s, t).value.IndexUnderscores? || MarkerAt(s, t).value.IndexParameter?)
              && AllDigits(MarkerAt(s, t).value.digits)
  {
  }

  /** Only '_', '=' and '$' can start a placeholder. */
  lemma MarkerStart(s: string, t: Template)
    requires s != [] && s[0] != '_' && s[0] != '=' && s[0] != '$'
    ensures MarkerAt(s, t).None?
  {
  }

  /** What a matched placeholder becomes, given the text of the new index. */
  function Replacement(p: Placeholder, index: string, t: Template): string {
    match p
    case IndexUnderscores(_) => "_" + index + "_"
    case IndexParameter(_) => "=" + index + "&"
    case ClassNameRef(_, _) => if t.VariantTemplate? then t.variantClassName else ""
    case NumberRef(_) => index
  }

  /** The global replace: the input is scanned left to right, each match is replaced
      and the scan resumes after it. */
  function Rewrite(s: string, index: string, t: Template): string
    decreases |s|
  {
    if s == [] then []
    else match MarkerAt(s, t)
      case Some(p) => MarkerAtSpec(s, t); Replacement(p, index, t) + Rewrite(s[|PlaceholderText(p)|..], index, t)
      case None => [s[0]] + Rewrite(s[1..], index, t)
  }

  /** The scan of a row as the replace sees it: single characters kept as they are,
      and the placeholders it matched. */
  datatype Segment = Literal(c: char) | Marker(p: Placeholder)

  function Scan(s: string, t: Template): (segs: seq<Segment>)
    decreases |s|
  {
    if s == [] then []
    else match MarkerAt(s, t)
      case Some(p) => MarkerAtSpec(s, t); [Marker(p)] + Scan(s[|PlaceholderText(p)|..], t)
      case None => [Literal(s[0])] + Scan(s[1..], t)
  }

  /** The text a sequence of segments was read from. */
  function Original(segs: seq<Segment>): string {
    if segs == [] then [] else SegmentText(segs[0]) + Original(segs[1..])
  }

  function SegmentText(seg: Segment): string {
    match seg
    case Literal(c) => [c]
    case Marker(p) => PlaceholderText(p)
  }

  function SegmentReplacement(seg: Segment, index: string, t: Template): string {
    match seg
    case Literal(c) => [c]
    case Marker(p) => Replacement(p, index, t)
  }

  /** The text with every placeholder segment replaced and every literal kept. */
  function Substituted(segs: seq<Segment>, index: string, t: Template): string {
    if segs == [] then [] else SegmentReplacement(segs[0], index, t) + Substituted(segs[1..], index, t)
  }

  /** The scan splits the row into pieces that together are the row. */
  lemma {:induction false} ScanCoversInput(s: string, t: Template)
    ensures Original(Scan(s, t)) == s
    decreases |s|
  {
    if s != [] {
      MarkerAtSpec(s, t);
      match MarkerAt(s, t)
      case Some(p) =>
        var n := |PlaceholderText(p)|;
        ScanCoversInput(s[n..], t);
        ScanMarkerStep(s, t, p);
      case None =>
        ScanCoversInput(s[1..], t);
        ScanLiteralStep(s, t);
    }
  }

  /** The step of ScanCoversInput after a matched placeholder. */
  lemma ScanMarkerStep(s: string, t: Template, p: Placeholder)
    requires MarkerAt(s, t) == Some(p)
    requires |PlaceholderText(p)| <= |s| && s[..|PlaceholderText(p)|] == PlaceholderText(p)
    requires Original(Scan(s[|PlaceholderText(p)|..], t)) == s[|PlaceholderText(p)|..]
    ensures Original(Scan(s, t)) == s
  {
    var n := |PlaceholderText(p)|;
    MarkerAtSpec(s, t);
    assert Scan(s, t) == [Marker(p)] + Scan(s[n..], t);
    OriginalCons(Marker(p), Scan(s[n..], t));
    assert s == s[..n] + s[n..];
  }

  /** The step of ScanCoversInput after a character kept as it is. */
  lemma ScanLiteralStep(s: string, t: Template)
    requires s != [] && MarkerAt(s, t).None?
    requires Original(Scan(s[1..], t)) == s[1..]
    ensures Original(Scan(s, t)) == s
  {
    assert Scan(s, t) == [Literal(s[0])] + Scan(s[1..], t);
    OriginalCons(Literal(s[0]), Scan(s[1..], t));
    assert s == [s[0]] + s[1..];
  }

  lemma OriginalCons(seg: Segment, segs: seq<Segment>)
    ensures Original([seg] + segs) == SegmentText(seg) + Original(segs)
  {
    assert ([seg] + segs)[1..] == segs;
  }

  /** The rewrite replaces exactly the scanned placeholders and keeps every other
      character of the row. */
  lemma {:induction false} RewriteReplacesOnlyMarkers(s: string, index: string, t: Template)
    ensures Rewrite(s, index, t) == Substituted(Scan(s, t), index, t)
    decreases |s|
  {
    if s != [] {
      match MarkerAt(s, t)
      case Some(p) =>
        RewriteReplacesOnlyMarkers(s[|PlaceholderText(p)|..], index, t);
      case None =>
        RewriteReplacesOnlyMarkers(s[1..], index, t);
    }
  }

  /** A row in which no placeholder starts anywhere is left unchanged. */
  lemma {:induction false} RewriteWithoutMarkers(s: string, index: string, t: Template)
    requires forall i :: 0 <= i < |s| ==> MarkerAt(s[i..], t).None?
    ensures Rewrite(s, index, t) == s
    decreases |s|
  {
    if s != [] {
      assert MarkerAt(s[0..], t).None?;
      assert s[0..] == s;
      forall i | 0 <= i < |s| - 1 ensures MarkerAt(s[1..][i..], t).None? {
        assert s[1..][i..] == s[i + 1..];
      }
      RewriteWithoutMarkers(s[1..], index, t);
    }
  }

  /** A character that cannot start a gene-row placeholder. */
  predicate PlainChar(c: char) { c != '_' && c != '=' && c != '$' }

  predicate PlainText(s: string) { forall i :: 0 <= i < |s| ==> PlainChar(s[i]) }

  /** One placeholder between text without '_', '=' or '$' is replaced in a gene row,
      and the text around it is kept. */
  lemma GeneRowPlaceholderReplaced(pre: string, open: char, digits: string, close: char, post: string, index: string)
    requires (open == '_' && close == '_') || (open == '=' && close == '&')
    requires digits != [] && AllDigits(digits)
    requires PlainText(pre) && PlainText(post)
    ensures Rewrite(pre + [open] + digits + [close] + post, index, GeneTemplate) == pre + [open] + index + [close] + post
  {
    var tail := [open] + digits + [close] + post;
    var newTail := [open] + index + [close] + post;
    assert pre + [open] + digits + [close] + post == pre + tail;
    assert pre + [open] + index + [close] + post == pre + newTail;
    RewriteAfterPlainText(pre, tail, index, GeneTemplate);
    MarkerFollowedByPlainText(digits, post, index, open, close);
  }

  lemma MarkerFollowedByPlainText(digits: string, post: string, index: string, open: char, close: char)
    requires digits != [] && AllDigits(digits)
    requires (open == '_' && close == '_') || (open == '=' && close == '&')
    requires PlainText(post)
    ensures Rewrite([open] + digits + [close] + post, index, GeneTemplate) == [open] + index + [close] + post
  {
    var p := if open == '_' then IndexUnderscores(digits) else IndexParameter(digits);
    IndexPlaceholderRewritten(p, post, index);
    RewriteOfPlainText(post, index, GeneTemplate);
  }

  /** An index placeholder at the start of a row is matched as a whole and replaced. */
  lemma IndexPlaceholderRewritten(p: Placeholder, rest: string, index: string)
    requires p.IndexUnderscores? || p.IndexParameter?
    requires p.digits != [] && AllDigits(p.digits)
    ensures Rewrite(PlaceholderText(p) + rest, index, GeneTemplate)
            == Replacement(p, index, GeneTemplate) + Rewrite(rest, index, GeneTemplate)
  {
    IndexPlaceholderMatched(p, rest, GeneTemplate);
    assert (PlaceholderText(p) + rest)[|PlaceholderText(p)|..] == rest;
  }

  lemma IndexPlaceholderMatched(p: Placeholder, rest: string, t: Template)
    requires p.IndexUnderscores? || p.IndexParameter?
    requires p.digits != [] && AllDigits(p.digits)
    ensures MarkerAt(PlaceholderText(p) + rest, t) == Some(p)
  {
    var open := if p.IndexUnderscores? then '_' else '=';
    var close := if p.IndexUnderscores? then '_' else '&';
    var d := p.digits;
    var s := PlaceholderText(p) + rest;
    assert s == [open] + (d + ([close] + rest));
    LeadingDigitsOfDigitsThen(d, [close] + rest);
    assert LeadingDigits(s[1..]) == d;
    assert s[1 + |d|] == close;
  }

  /** A placeholder the pattern can match: an index run of at least one digit, and object
      references whose `.` characters are not line terminators. */
  predicate Matchable(p: Placeholder) {
    match p
    case IndexUnderscores(d) => d != [] && AllDigits(d)
    case IndexParameter(d) => d != [] && AllDigits(d)
    case ClassNameRef(a, b) => !IsLineTerminator(a) && !IsLineTerminator(b)
    case NumberRef(a) => !IsLineTerminator(a)
  }

  /** `${object.xWikiClass.name}` and `${object.number}` at the start of a variant row are
      matched as a whole. */
  lemma ObjectPlaceholderMatched(p: Placeholder, rest: string, t: Template)
    requires (p.ClassNameRef? || p.NumberRef?) && Matchable(p) && t.VariantTemplate?
    ensures MarkerAt(PlaceholderText(p) + rest, t) == Some(p)
  {
    var s := PlaceholderText(p) + rest;
    assert s[..8] == ObjectOpen;
    if p.ClassNameRef? {
      assert s[9..19] == ClassNameMiddle;
      assert s[20..25] == ClassNameClose;
    } else {
      assert s[9..16] == NumberClose;
      assert s[9] != ClassNameMiddle[0];
    }
  }

  /** Every placeholder the pattern can match, at the start of a variant row, is replaced:
      index placeholders by the new index, `${object.xWikiClass.name}` by the variant
      class name and `${object.number}` by the new index. */
  lemma VariantPlaceholderRewritten(p: Placeholder, rest: string, index: string, className: string)
    requires Matchable(p)
    ensures Rewrite(PlaceholderText(p) + rest, index, VariantTemplate(className))
            == Replacement(p, index, VariantTemplate(className)) + Rewrite(rest, index, VariantTemplate(className))
  {
    if p.IndexUnderscores? || p.IndexParameter? {
      IndexPlaceholderMatched(p, rest, VariantTemplate(className));
    } else {
      ObjectPlaceholderMatched(p, rest, VariantTemplate(className));
    }
    assert (PlaceholderText(p) + rest)[|PlaceholderText(p)|..] == rest;
  }

  /** `${object.xWikiClass.name}` in a variant row becomes the variant class name. */
  lemma ClassNameRefRewritten(rest: string, index: string, className: string)
    ensures Rewrite("${object.xWikiClass.name}" + rest, index, VariantTemplate(className))
            == className + Rewrite(rest, index, VariantTemplate(className))
  {
    var p := ClassNameRef('.', '.');
    assert PlaceholderText(p) == "${object.xWikiClass.name}";
    VariantPlaceholderRewritten(p, rest, index, className);
  }

  /** `${object.number}` in a variant row becomes the new variant index. */
  lemma NumberRefRewritten(rest: string, index: string, className: string)
    ensures Rewrite("${object.number}" + rest, index, VariantTemplate(className))
            == index + Rewrite(rest, index, VariantTemplate(className))
  {
    var p := NumberRef('.');
    assert PlaceholderText(p) == "${object.number}";
    VariantPlaceholderRewritten(p, rest, index, className);
  }

  /** One placeholder between text without '_', '=' or '$' is replaced in a variant row,
      and the text around it is kept. */
  lemma VariantRowPlaceholderReplaced(pre: string, p: Placeholder, post: string, index: string, className: string)
    requires Matchable(p)
    requires PlainText(pre) && PlainText(post)
    ensures Rewrite(pre + PlaceholderText(p) + post, index, VariantTemplate(className))
            == pre + Replacement(p, index, VariantTemplate(className)) + post
  {
    var t := VariantTemplate(className);
    assert pre + PlaceholderText(p) + post == pre + (PlaceholderText(p) + post);
    RewriteAfterPlainText(pre, PlaceholderText(p) + post, index, t);
    VariantPlaceholderRewritten(p, post, index, className);
    RewriteOfPlainText(post, index, t);
  }

  lemma {:induction false} RewriteOfPlainText(s: string, index: string, t: Template)
    requires PlainText(s)
    ensures Rewrite(s, index, t) == s
    decreases |s|
  {
    if s != [] {
      MarkerStart(s, t);
      RewriteOfPlainText(s[1..], index, t);
    }
  }

  lemma {:induction false} RewriteAfterPlainText(pre: string, rest: string, index: string, t: Template)
    requires PlainText(pre)
    ensures Rewrite(pre + rest, index, t) == pre + Rewrite(rest, index, t)
    decreases |pre|
  {
    if pre == [] {
      assert pre + rest == rest;
    } else {
      RewritePlainStep(pre, rest, index, t);
      RewriteAfterPlainText(pre[1..], rest, index, t);
      AppendAssoc([pre[0]], pre[1..], Rewrite(rest, index, t));
      assert [pre[0]] + pre[1..] == pre;
    }
  }

  /** A first character that cannot start a placeholder is kept and the rewrite goes on
      after it. */
  lemma RewritePlainStep(pre: string, rest: string, index: string, t: Template)
    requires pre != [] && PlainChar(pre[0])
    ensures Rewrite(pre + rest, index, t) == [pre[0]] + Rewrite(pre[1..] + rest, index, t)
  {
    var s := pre + rest;
    MarkerStart(s, t);
    RewriteLiteralStep(s, index, t);
    assert s[1..] == pre[1..] + rest;
  }

  /** Where no placeholder starts, the first character is kept and the rewrite goes on. */
  lemma RewriteLiteralStep(s: string, index: string, t: Template)
    requires s != [] && MarkerAt(s, t).None?
    ensures Rewrite(s, index, t) == [s[0]] + Rewrite(s[1..], index, t)
  {
  }

  // Rewriting a gene row a second time with the same numeric index changes nothing.

  /** A gene-row rewrite keeps the first character of the row. */
  lemma RewriteKeepsFirstChar(s: string, index: string)
    ensures s == [] <==> Rewrite(s, index, GeneTemplate) == []
    ensures s != [] ==> Rewrite(s, index, GeneTemplate)[0] == s[0]
  {
    if s != [] {
      match MarkerAt(s, GeneTemplate)
      case Some(p) =>
        assert s[..|PlaceholderText(p)|] == PlaceholderText(p);
      case None =>
    }
  }

  /** A replaced placeholder is matched again as the same kind of placeholder. */
  lemma ReplacementMatchesAgain(p: Placeholder, index: string, rest: string)
    requires p.IndexUnderscores? || p.IndexParameter?
    requires index != [] && AllDigits(index)
    ensures Rewrite(Replacement(p, index, GeneTemplate) + rest, index, GeneTemplate)
            == Replacement(p, index, GeneTemplate) + Rewrite(rest, index, GeneTemplate)
  {
    var q := if p.IndexUnderscores? then IndexUnderscores(index) else IndexParameter(index);
    IndexPlaceholderRewritten(q, rest, index);
  }

  /** Where no placeholder starts, none starts after the rest of the row is rewritten. */
  lemma NoMarkerStaysNoMarker(s: string, index: string)
    requires s != [] && MarkerAt(s, GeneTemplate).None?
    ensures MarkerAt([s[0]] + Rewrite(s[1..], index, GeneTemplate), GeneTemplate).None?
  {
    var c := s[0];
    var u := s[1..];
    var t := Rewrite(u, index, GeneTemplate);
    if c == '_' || c == '=' {
      var d := LeadingDigits(u);
      LeadingDigitsSpec(u);
      var v := u[|d|..];
      assert u == d + v;
      assert PlainText(d);
      RewriteAfterPlainText(d, v, index, GeneTemplate);
      RewriteKeepsFirstChar(v, index);
      var rv := Rewrite(v, index, GeneTemplate);
      assert t == d + rv;
      LeadingDigitsOfDigitsThen(d, rv);
      assert ([c] + t)[1..] == t;
      if rv != [] {
        assert ([c] + t)[1 + |d|] == rv[0] == s[1 + |d|];
      }
    }
  }

  /** Rewriting a gene row twice with the same numeric index gives the row rewritten once. */
  lemma {:induction false} GeneRowRewriteIdempotent(s: string, index: string)
    requires index != [] && AllDigits(index)
    ensures Rewrite(Rewrite(s, index, GeneTemplate), index, GeneTemplate) == Rewrite(s, index, GeneTemplate)
    decreases |s|
  {
    if s != [] {
      match MarkerAt(s, GeneTemplate)
      case Some(p) =>
        var rest := s[|PlaceholderText(p)|..];
        ReplacementMatchesAgain(p, index, Rewrite(rest, index, GeneTemplate));
        GeneRowRewriteIdempotent(rest, index);
      case None =>
        var t := Rewrite(s[1..], index, GeneTemplate);
        NoMarkerStaysNoMarker(s, index);
        assert ([s[0]] + t)[1..] == t;
        GeneRowRewriteIdempotent(s[1..], index);
    }
  }

  // ---------------------------------------------------------------------------
  // The parenthesised count of a variant header: text.replace(/(\().+?(\))/g, "$1" + k + "$2")

  /** Where the lazy `.+?` group that follows an opening parenthesis ends: the first ')'
      after at least one character, with no line terminator before it. `t` is the text
      after the '('; the result is the index of the closing ')' in `t`. */
  function LazyClose(t: string): (r: Option<nat>)
    ensures r.Some? ==> 1 <= r.value < |t| && t[r.value] == ')'
  {
    if |t| < 2 || IsLineTerminator(t[0]) then None else FirstCloseFrom(t, 1)
  }

  function FirstCloseFrom(t: string, k: nat): (r: Option<nat>)
    requires k >= 1
    ensures r.Some? ==> k <= r.value < |t| && t[r.value] == ')'
    decreases |t| - k
  {
    if k >= |t| then None
    else if t[k] == ')' then Some(k)
    else if IsLineTerminator(t[k]) then None
    else FirstCloseFrom(t, k + 1)
  }

  function ReplaceCount(s: string, count: string): string
    decreases |s|
  {
    if s == [] then []
    else if s[0] == '(' && LazyClose(s[1..]).Some? then
      "(" + count + ")" + ReplaceCount(s[LazyClose(s[1..]).value + 2..], count)
    else [s[0]] + ReplaceCount(s[1..], count)
  }

  lemma {:induction false} ReplaceCountAfterPlainText(p: string, rest: string, count: string)
    requires '(' !in p
    ensures ReplaceCount(p + rest, count) == p + ReplaceCount(rest, count)
    decreases |p|
  {
    if p == [] {
      assert p + rest == rest;
    } else {
      assert p[0] in p;
      assert (p + rest)[1..] == p[1..] + rest;
      assert '(' !in p[1..] by {
        forall k | 0 <= k < |p| - 1 ensures p[1..][k] != '(' { assert p[1..][k] == p[k + 1]; }
      }
      ReplaceCountAfterPlainText(p[1..], rest, count);
    }
  }

  lemma {:induction false} FirstCloseFromPlain(t: string, k: nat, j: nat)
    requires 1 <= k <= j < |t| && t[j] == ')'
    requires forall i :: k <= i < j ==> t[i] != ')' && !IsLineTerminator(t[i])
    ensures FirstCloseFrom(t, k) == Some(j)
    decreases j - k
  {
    if k < j {
      FirstCloseFromPlain(t, k + 1, j);
    }
  }

  /** A header `<text> (<previous count>)<more text>` gets the new count in the parentheses
      and keeps all other text, when the surrounding text has no opening parenthesis. */
  lemma HeaderCountUpdated(p: string, previous: string, q: string, count: string)
    requires '(' !in p && '(' !in q
    requires previous != [] && ')' !in previous && forall c :: c in previous ==> !IsLineTerminator(c)
    ensures ReplaceCount(p + "(" + previous + ")" + q, count) == p + "(" + count + ")" + q
  {
    var group := "(" + previous + ")" + q;
    ConcatRegroup(p, "(", previous, ")", q);
    ConcatRegroup(p, "(", count, ")", q);
    ReplaceCountAfterPlainText(p, group, count);
    GroupReplaced(previous, q, count);
    ReplaceCountOfPlainText(q, count);
  }

  lemma ConcatRegroup(a: string, b: string, c: string, d: string, e: string)
    ensures a + b + c + d + e == a + (b + c + d + e)
  {
  }

  lemma {:induction false} ReplaceCountOfPlainText(s: string, count: string)
    requires '(' !in s
    ensures ReplaceCount(s, count) == s
  {
    ReplaceCountAfterPlainText(s, [], count);
    assert s + [] == s;
  }

  lemma GroupReplaced(previous: string, q: string, count: string)
    requires previous != [] && ')' !in previous && forall c :: c in previous ==> !IsLineTerminator(c)
    ensures ReplaceCount("(" + previous + ")" + q, count) == "(" + count + ")" + ReplaceCount(q, count)
  {
    var group := "(" + previous + ")" + q;
    var t := group[1..];
    assert t == previous + ")" + q;
    LazyCloseOf(previous, q);
    assert group[|previous| + 2..] == q;
  }

  lemma LazyCloseOf(previous: string, q: string)
    requires previous != [] && ')' !in previous && forall c :: c in previous ==> !IsLineTerminator(c)
    ensures LazyClose(previous + ")" + q) == Some(|previous|)
  {
    var t := previous + ")" + q;
    assert t[0] == previous[0] && previous[0] in previous;
    forall i | 1 <= i < |previous| ensures t[i] != ')' && !IsLineTerminator(t[i]) {
      assert t[i] == previous[i] && previous[i] in previous;
    }
    FirstCloseFromPlain(t, 1, |previous|);
  }

  // ---------------------------------------------------------------------------
  // Variant labels `g.k`

  /** The label of the k-th variant of a gene whose visible number is written `geneCount`. */
  function VariantLabel(geneCount: string, k: nat): string {
    geneCount + "." + NatToString(k)
  }

  /** innerText.substring(0, innerText.indexOf('.')): the gene number a variant label starts with. */
  function GeneCountOfLabel(text: string): string {
    JsSubstring(text, 0, IndexOf(text, '.'))
  }

  /** The gene number is read back from a label whose gene number has no '.'. */
  lemma GeneCountOfLabelRoundTrip(geneCount: string, k: nat)
    requires '.' !in geneCount
    ensures GeneCountOfLabel(VariantLabel(geneCount, k)) == geneCount
  {
    var text := VariantLabel(geneCount, k);
    assert text[..|geneCount|] == geneCount;
    IndexOfAt(text, '.', |geneCount|);
  }

  /** The decimal text of a number never contains a '.'. */
  lemma NatToStringHasNoDot(n: nat)
    ensures '.' !in NatToString(n)
  {
  }
}
