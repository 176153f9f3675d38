/** The patient consent manager (PhenoTipsPatientConsentManager): the system consents
    configured on the consent configuration page, cached and reloaded when the page
    changes; the consents a patient has granted, stored as a list of consent ids on the
    patient record; and the queries and updates that combine the two. */
module Consents {
  import opened Common
  import opened JsonModel

  // ---------------------------------------------------------------------------
  // Consents

  datatype ConsentStatus = Yes | No | NotSet

  /** A consent: `description` is None when there is none (null), and `dataFields` and
      `formFields` are present only for a consent that affects patient form fields. */
  datatype Consent = Consent(
    id: string,
    labelText: string,
    description: Option<string>,
    required: bool,
    dataFields: Option<seq<string>>,
    formFields: Option<seq<string>>,
    status: ConsentStatus)

  /** Consent.copy(status): the same consent with the given status. */
  function Copy(c: Consent, status: ConsentStatus): Consent {
    c.(status := status)
  }

  /** Consents are identified by their id: no id occurs twice. */
  predicate UniqueIds(cs: seq<Consent>) {
    forall i, j :: 0 <= i < j < |cs| ==> cs[i].id != cs[j].id
  }

  /** Some consent of `cs` has the id `id`. */
  predicate HasId(cs: seq<Consent>, id: string) {
    exists i :: 0 <= i < |cs| && cs[i].id == id
  }

  /** Adding to the insertion-ordered consent set: a consent whose id is already present
      is not added again. */
  function AddToSet(cs: seq<Consent>, c: Consent): (r: seq<Consent>)
    ensures UniqueIds(cs) ==> UniqueIds(r)
    ensures HasId(cs, c.id) ==> r == cs
    ensures !HasId(cs, c.id) ==> r == cs + [c]
  {
    if HasId(cs, c.id) then cs else cs + [c]
  }

  // ---------------------------------------------------------------------------
  // cleanDescription: the rendered label and description of a consent, cleaned

  const DivOpen: string := "<div>"
  const DivClose: string := "</div>"
  const ParagraphOpen: string := "<p>"
  const ParagraphClose: string := "</p>"
  const MacroOpen: string := "{{"
  const MacroName: string := "html"

  /** String.replace(target, ""): every occurrence of a non-empty `pat`, found left to
      right without overlap, is removed. */
  function RemoveAll(s: string, pat: string): (r: string)
    requires pat != []
    ensures |r| <= |s|
    decreases |s|
  {
    if s == [] then []
    else if pat <= s then RemoveAll(s[|pat|..], pat)
    else [s[0]] + RemoveAll(s[1..], pat)
  }

  /** The characters Java's `.` does not match. */
  predicate IsJavaLineTerminator(c: char) {
    c == '\n' || c == '\r' || c == '\U{0085}' || c == '\U{2028}' || c == '\U{2029}'
  }

  /** The lazy `(.*?)[}]{2}` tail of the macro pattern, tried from index `j` of `s`:
      the end of the first "}}" at or after `j` with no line terminator before it. */
  function MacroEndFrom(s: string, j: nat): (r: Option<nat>)
    ensures r.Some? ==> j + 2 <= r.value <= |s| && s[r.value - 2] == '}' && s[r.value - 1] == '}'
    decreases |s| - j
  {
    if j + 2 > |s| then None
    else if s[j] == '}' && s[j + 1] == '}' then Some(j + 2)
    else if IsJavaLineTerminator(s[j]) then None
    else MacroEndFrom(s, j + 1)
  }

  /** The length of the match of `[{]{2}(/{0,1})html(.*?)[}]{2}` at the start of `s`, if
      any. After "{{" a '/' is taken when present; the alternative without it would need
      'h' where the '/' is, so it never matches instead. */
  function MacroAt(s: string): (r: Option<nat>)
    ensures r.Some? ==> 8 <= r.value <= |s|
  {
    if !(MacroOpen <= s) then None
    else
      var k := if |s| > 2 && s[2] == '/' then 3 else 2;
      if MacroName <= s[k..] then MacroEndFrom(s, k + 4) else None
  }

  /** String.replaceAll("[{]{2}(/{0,1})html(.*?)[}]{2}", ""): matches are removed left to
      right and the scan resumes after each one. */
  function StripHtmlMacros(s: string): (r: string)
    ensures |r| <= |s|
    decreases |s|
  {
    if s == [] then []
    else match MacroAt(s)
      case Some(n) => StripHtmlMacros(s[n..])
      case None => [s[0]] + StripHtmlMacros(s[1..])
  }

  /** cleanDescription(toClean, stripParagraphTags); null stays null. */
  function CleanDescription(toClean: Option<string>, stripParagraphTags: bool): (r: Option<string>)
    ensures r.None? <==> toClean.None?
    ensures r.Some? ==> |r.value| <= |toClean.value|
  {
    match toClean
    case None => None
    case Some(s) =>
      var t := if stripParagraphTags
        then RemoveAll(RemoveAll(RemoveAll(RemoveAll(s, DivOpen), DivClose), ParagraphOpen), ParagraphClose)
        else s;
      Some(StripHtmlMacros(t))
  }

  /** A text without the first character of the pattern is left as it is. */
  lemma {:induction false} RemoveAllWithoutPattern(s: string, pat: string)
    requires pat != [] && forall i :: 0 <= i < |s| ==> s[i] != pat[0]
    ensures RemoveAll(s, pat) == s
    decreases |s|
  {
    if s != [] {
      assert s[0] != pat[0];
      assert !(pat <= s);
      RemoveAllWithoutPattern(s[1..], pat);
    }
  }

  /** Each occurrence is removed: an occurrence after text that cannot start one goes,
      and the text before it stays. */
  lemma {:induction false} RemoveAllOccurrence(pre: string, pat: string, post: string)
    requires pat != [] && forall i :: 0 <= i < |pre| ==> pre[i] != pat[0]
    ensures RemoveAll(pre + pat + post, pat) == pre + RemoveAll(post, pat)
    decreases |pre|
  {
    var s := pre + pat + post;
    if pre == [] {
      assert s == pat + post;
      assert pat <= s;
      assert s[|pat|..] == post;
    } else {
      assert s[0] == pre[0];
      assert !(pat <= s);
      assert s[1..] == pre[1..] + pat + post;
      RemoveAllOccurrence(pre[1..], pat, post);
      AppendAssoc([pre[0]], pre[1..], RemoveAll(post, pat));
      assert [pre[0]] + pre[1..] == pre;
    }
  }

  /** A text without '{' contains no macro and is left as it is. */
  lemma {:induction false} StripHtmlMacrosWithoutBraces(s: string)
    requires forall i :: 0 <= i < |s| ==> s[i] != '{'
    ensures StripHtmlMacros(s) == s
    decreases |s|
  {
    if s != [] {
      assert s[0] != MacroOpen[0];
      assert MacroAt(s).None?;
      StripHtmlMacrosWithoutBraces(s[1..]);
    }
  }

  /** A macro `{{html...}}` or `{{/html...}}` whose body holds no '}' and no line
      terminator is removed, and the text before it, free of '{', stays. */
  lemma {:induction false} StripHtmlMacrosRemovesMacro(pre: string, slash: bool, body: string, post: string)
    requires forall i :: 0 <= i < |pre| ==> pre[i] != '{'
    requires forall i :: 0 <= i < |body| ==> body[i] != '}' && !IsJavaLineTerminator(body[i])
    ensures var macro := MacroOpen + (if slash then "/" else "") + MacroName + body + "}}";
            StripHtmlMacros(pre + macro + post) == pre + StripHtmlMacros(post)
    decreases |pre|
  {
    var macro := MacroOpen + (if slash then "/" else "") + MacroName + body + "}}";
    if pre == [] {
      MacroAtMacro(slash, body, post);
      assert pre + macro + post == macro + post;
      assert (macro + post)[|macro|..] == post;
    } else {
      var s := pre + macro + post;
      assert s[0] == pre[0];
      assert MacroAt(s).None?;
      assert s[1..] == pre[1..] + macro + post;
      StripHtmlMacrosRemovesMacro(pre[1..], slash, body, post);
      AppendAssoc([pre[0]], pre[1..], StripHtmlMacros(post));
      assert [pre[0]] + pre[1..] == pre;
    }
  }

  /** The macro is matched exactly, up to its first "}}". */
  lemma MacroAtMacro(slash: bool, body: string, post: string)
    requires forall i :: 0 <= i < |body| ==> body[i] != '}' && !IsJavaLineTerminator(body[i])
    ensures var macro := MacroOpen + (if slash then "/" else "") + MacroName + body + "}}";
            MacroAt(macro + post) == Some(|macro|)
  {
    var head := MacroOpen + (if slash then "/" else "") + MacroName;
    var macro := head + body + "}}";
    var s := macro + post;
    var k := if slash then 3 else 2;
    assert s[..2] == MacroOpen;
    assert |s| > 2 && (s[2] == '/' <==> slash);
    assert s[k..][..4] == MacroName;
    MacroEndFromBody(s, |head|, body);
  }

  lemma {:induction false} MacroEndFromBody(s: string, j: nat, body: string)
    requires j + |body| + 2 <= |s| && s[j..j + |body|] == body
    requires s[j + |body|] == '}' && s[j + |body| + 1] == '}'
    requires forall i :: 0 <= i < |body| ==> body[i] != '}' && !IsJavaLineTerminator(body[i])
    ensures MacroEndFrom(s, j) == Some(j + |body| + 2)
    decreases |body|
  {
    if body != [] {
      assert s[j] == body[0];
      assert s[j + 1..j + 1 + |body[1..]|] == body[1..];
      MacroEndFromBody(s, j + 1, body[1..]);
    }
  }

  /** Plain text (no markup and no macro braces) comes out of cleanDescription unchanged. */
  lemma CleanDescriptionOfPlainText(s: string, stripParagraphTags: bool)
    requires forall i :: 0 <= i < |s| ==> s[i] != '<' && s[i] != '{'
    ensures CleanDescription(Some(s), stripParagraphTags) == Some(s)
  {
    RemoveAllWithoutPattern(s, DivOpen);
    RemoveAllWithoutPattern(s, DivClose);
    RemoveAllWithoutPattern(s, ParagraphOpen);
    RemoveAllWithoutPattern(s, ParagraphClose);
    StripHtmlMacrosWithoutBraces(s);
  }

  /** Text without the pattern's first character is kept, and the rest is processed. */
  lemma {:induction false} RemoveAllKeepsPrefix(pre: string, pat: string, rest: string)
    requires pat != [] && forall i :: 0 <= i < |pre| ==> pre[i] != pat[0]
    ensures RemoveAll(pre + rest, pat) == pre + RemoveAll(rest, pat)
    decreases |pre|
  {
    if pre != [] {
      var s := pre + rest;
      assert s[0] == pre[0];
      assert !(pat <= s);
      assert s[1..] == pre[1..] + rest;
      RemoveAllKeepsPrefix(pre[1..], pat, rest);
      AppendAssoc([pre[0]], pre[1..], RemoveAll(rest, pat));
      assert [pre[0]] + pre[1..] == pre;
    } else {
      assert pre + rest == rest;
    }
  }

  /** A tag that differs from the pattern at position `j`, and holds the pattern's first
      character only at its start, is kept. */
  lemma RemoveAllKeepsTag(tag: string, pat: string, rest: string, j: nat)
    requires pat != [] && j < |tag| && j < |pat| && tag[j] != pat[j]
    requires forall i :: 1 <= i < |tag| ==> tag[i] != pat[0]
    ensures RemoveAll(tag + rest, pat) == tag + RemoveAll(rest, pat)
  {
    var s := tag + rest;
    assert s[j] == tag[j];
    assert !(pat <= s);
    assert s[1..] == tag[1..] + rest;
    RemoveAllKeepsPrefix(tag[1..], pat, rest);
    AppendAssoc([tag[0]], tag[1..], RemoveAll(rest, pat));
    assert [tag[0]] + tag[1..] == tag;
  }

  /** A tag, `pat`'s text at its own end, differs from it at position `j` and is kept. */
  lemma RemoveAllKeepsLastTag(tag: string, pat: string, j: nat)
    requires pat != [] && j < |tag| && j < |pat| && tag[j] != pat[j]
    requires forall i :: 1 <= i < |tag| ==> tag[i] != pat[0]
    ensures RemoveAll(tag, pat) == tag
  {
    RemoveAllKeepsTag(tag, pat, [], j);
    AppendEmpty(tag);
  }

  /** The pattern on its own is removed entirely. */
  lemma RemoveAllLone(pat: string)
    requires pat != []
    ensures RemoveAll(pat, pat) == []
  {
    RemoveAllOccurrence([], pat, []);
    AppendEmpty(pat);
  }

  /** An HTML tag: '<' and at least one more character, none of them '<'. */
  predicate IsTag(x: string) {
    |x| >= 2 && x[0] == '<' && forall i :: 1 <= i < |x| ==> x[i] != '<'
  }

  /** Text that holds no tag. */
  predicate NoTagStart(t: string) {
    forall i :: 0 <= i < |t| ==> t[i] != '<'
  }

  /** Removing the outer opening tag `a` of `a b t c d` leaves `b t c d`. */
  lemma StripOuterOpen(t: string, a: string, b: string, c: string, d: string)
    requires IsTag(a) && IsTag(b) && IsTag(c) && IsTag(d) && NoTagStart(t)
    requires a[1] != b[1] && a[1] != c[1] && a[1] != d[1]
    ensures RemoveAll(a + b + t + c + d, a) == b + t + c + d
  {
    AppendAssoc(a, b + t + c, d);
    AppendAssoc(a, b + t, c);
    AppendAssoc(a, b, t);
    AppendEmpty(a);
    RemoveAllOccurrence([], a, b + t + c + d);
    AppendAssoc(b, t, c + d);
    AppendAssoc(b + t, c, d);
    RemoveAllKeepsTag(b, a, t + (c + d), 1);
    RemoveAllKeepsPrefix(t, a, c + d);
    RemoveAllKeepsTag(c, a, d, 1);
    RemoveAllKeepsLastTag(d, a, 1);
  }

  /** Removing the outer closing tag `d` of `b t c d` leaves `b t c`. */
  lemma StripOuterClose(t: string, b: string, c: string, d: string)
    requires IsTag(b) && IsTag(c) && IsTag(d) && NoTagStart(t)
    requires |c| > 2 && |d| > 2 && d[1] != b[1] && d[2] != c[2]
    ensures RemoveAll(b + t + c + d, d) == b + t + c
  {
    AppendAssoc(b, t, c + d);
    AppendAssoc(b + t, c, d);
    AppendAssoc(b, t, c);
    RemoveAllKeepsTag(b, d, t + (c + d), 1);
    RemoveAllKeepsPrefix(t, d, c + d);
    RemoveAllKeepsTag(c, d, d, 2);
    RemoveAllLone(d);
    AppendEmpty(c);
  }

  /** Removing the inner opening tag `b` of `b t c` leaves `t c`. */
  lemma StripInnerOpen(t: string, b: string, c: string)
    requires IsTag(b) && IsTag(c) && NoTagStart(t) && b[1] != c[1]
    ensures RemoveAll(b + t + c, b) == t + c
  {
    AppendAssoc(b, t, c);
    AppendEmpty(b);
    AppendAssoc([], b, t + c);
    RemoveAllOccurrence([], b, t + c);
    RemoveAllKeepsPrefix(t, b, c);
    RemoveAllKeepsLastTag(c, b, 1);
  }

  /** Removing the inner closing tag `c` of `t c` leaves `t`. */
  lemma StripInnerClose(t: string, c: string)
    requires IsTag(c) && NoTagStart(t)
    ensures RemoveAll(t + c, c) == t
  {
    AppendEmpty(t + c);
    RemoveAllOccurrence(t, c, []);
    AppendEmpty(t);
  }

  /** Text that holds no '{', so no macro. */
  predicate NoBrace(x: string) {
    forall i :: 0 <= i < |x| ==> x[i] != '{'
  }

  lemma NoBraceConcat(x: string, y: string)
    requires NoBrace(x) && NoBrace(y)
    ensures NoBrace(x + y)
  {
    forall i | 0 <= i < |x + y| ensures (x + y)[i] != '{' {
      if i >= |x| {
        assert (x + y)[i] == y[i - |x|];
      }
    }
  }

  /** The four replacements, in cleanDescription's order, strip `a b t c d` down to `t`. */
  lemma StripWrapper(t: string, a: string, b: string, c: string, d: string)
    requires IsTag(a) && IsTag(b) && IsTag(c) && IsTag(d) && NoTagStart(t)
    requires a[1] != b[1] && a[1] != c[1] && a[1] != d[1] && b[1] != c[1]
    requires |c| > 2 && |d| > 2 && d[1] != b[1] && d[2] != c[2]
    ensures RemoveAll(RemoveAll(RemoveAll(RemoveAll(a + b + t + c + d, a), d), b), c) == t
  {
    StripOuterOpen(t, a, b, c, d);
    StripOuterClose(t, b, c, d);
    StripInnerOpen(t, b, c);
    StripInnerClose(t, c);
  }

  lemma WrapperNoBrace(t: string, a: string, b: string, c: string, d: string)
    requires NoBrace(a) && NoBrace(b) && NoBrace(t) && NoBrace(c) && NoBrace(d)
    ensures NoBrace(a + b + t + c + d)
  {
    NoBraceConcat(a, b);
    NoBraceConcat(a + b, t);
    NoBraceConcat(a + b + t, c);
    NoBraceConcat(a + b + t + c, d);
  }

  /** The replacements of cleanDescription remove `<div><p>` and `</p></div>` around text
      without tags. */
  lemma StripDivParagraph(t: string)
    requires NoTagStart(t)
    ensures RemoveAll(RemoveAll(RemoveAll(RemoveAll(DivOpen + ParagraphOpen + t + ParagraphClose + DivClose,
              DivOpen), DivClose), ParagraphOpen), ParagraphClose) == t
  {
    assert IsTag(DivOpen) && IsTag(DivClose) && IsTag(ParagraphOpen) && IsTag(ParagraphClose);
    StripWrapper(t, DivOpen, ParagraphOpen, ParagraphClose, DivClose);
  }

  lemma DivParagraphNoBrace(t: string)
    requires NoBrace(t)
    ensures NoBrace(DivOpen + ParagraphOpen + t + ParagraphClose + DivClose)
  {
    assert NoBrace(DivOpen) && NoBrace(ParagraphOpen) && NoBrace(ParagraphClose) && NoBrace(DivClose);
    WrapperNoBrace(t, DivOpen, ParagraphOpen, ParagraphClose, DivClose);
  }

  /** The `<div><p>...</p></div>` wrapper the renderer puts around a description is
      removed exactly when stripParagraphTags is set; otherwise the text comes back as
      rendered. */
  lemma CleanDescriptionOfWrappedText(t: string)
    requires forall i :: 0 <= i < |t| ==> t[i] != '<' && t[i] != '{'
    ensures var w := DivOpen + ParagraphOpen + t + ParagraphClose + DivClose;
            CleanDescription(Some(w), true) == Some(t) && CleanDescription(Some(w), false) == Some(w)
  {
    var w := DivOpen + ParagraphOpen + t + ParagraphClose + DivClose;
    StripDivParagraph(t);
    StripHtmlMacrosWithoutBraces(t);
    DivParagraphNoBrace(t);
    StripHtmlMacrosWithoutBraces(w);
  }

  // ---------------------------------------------------------------------------
  // Building the system consents from the configuration page

  /** intToBool: only 1 means true. */
  function IntToBool(value: int): bool {
    value == 1
  }

  /** One consent object of the configuration page, as the manager reads it: its id, its
      label and description as rendered (null when rendering gives nothing), the integer
      "required" and "affectsFields" properties, the form fields it lists, and the data
      fields the UI-extension lookup finds for them (None when that lookup fails). */
  datatype ConsentConfiguration = ConsentConfiguration(
    id: string,
    renderedLabel: Option<string>,
    renderedDescription: Option<string>,
    requiredValue: int,
    affectsFieldsValue: int,
    formFields: seq<string>,
    dataFieldsLookup: Option<seq<string>>)

  /** fromXWikiConsentConfiguration: None when the configuration cannot be turned into a
      consent (the field lookup failed). A missing or empty label becomes the id followed
      by a space and the translated "empty label" text. */
  function FromConfiguration(c: ConsentConfiguration, emptyLabelText: string): (r: Option<Consent>)
    ensures r.None? <==> IntToBool(c.affectsFieldsValue) && c.dataFieldsLookup.None?
    ensures r.Some? ==>
              && r.value.id == c.id
              && r.value.required == (c.requiredValue == 1)
              && (r.value.formFields.Some? <==> c.affectsFieldsValue == 1)
              && (r.value.formFields.Some? ==> r.value.formFields == Some(c.formFields))
              && (r.value.formFields.Some? ==> r.value.dataFields == c.dataFieldsLookup)
              && (r.value.formFields.None? ==> r.value.dataFields.None?)
              && r.value.description == CleanDescription(c.renderedDescription, false)
              && r.value.status == NotSet
  {
    var cleanLabel := CleanDescription(c.renderedLabel, true);
    var labelText := if cleanLabel.None? || cleanLabel.value == [] then c.id + " " + emptyLabelText else cleanLabel.value;
    var description := CleanDescription(c.renderedDescription, false);
    var affectsFields := IntToBool(c.affectsFieldsValue);
    if affectsFields && c.dataFieldsLookup.None? then None
    else if affectsFields then
      Some(Consent(c.id, labelText, description, IntToBool(c.requiredValue), c.dataFieldsLookup, Some(c.formFields), NotSet))
    else
      Some(Consent(c.id, labelText, description, IntToBool(c.requiredValue), None, None, NotSet))
  }

  /** The label a consent is given: the cleaned rendered label, or the id and the
      "empty label" text when there is none. */
  lemma FromConfigurationLabel(c: ConsentConfiguration, emptyLabelText: string)
    requires FromConfiguration(c, emptyLabelText).Some?
    ensures var clean := CleanDescription(c.renderedLabel, true);
            FromConfiguration(c, emptyLabelText).value.labelText ==
              if clean.Some? && clean.value != [] then clean.value else c.id + " " + emptyLabelText
  {
  }

  /** The consent set the cache is rebuilt with: the configurations in page order, those
      that cannot be built skipped, a repeated id kept once. */
  function BuildSystemConsents(configs: seq<ConsentConfiguration>, emptyLabelText: string): (r: seq<Consent>)
    decreases |configs|
  {
    if configs == [] then []
    else
      var before := BuildSystemConsents(configs[..|configs| - 1], emptyLabelText);
      match FromConfiguration(configs[|configs| - 1], emptyLabelText)
      case None => before
      case Some(c) => AddToSet(before, c)
  }

  /** Every consent of `cs` is built from one of the configurations. */
  predicate BuiltFrom(cs: seq<Consent>, configs: seq<ConsentConfiguration>, emptyLabelText: string) {
    forall k :: 0 <= k < |cs| ==>
      exists i :: 0 <= i < |configs| && FromConfiguration(configs[i], emptyLabelText) == Some(cs[k])
  }

  /** A configuration can be turned into a consent unless its field lookup failed. */
  predicate Buildable(c: ConsentConfiguration) {
    !(IntToBool(c.affectsFieldsValue) && c.dataFieldsLookup.None?)
  }

  /** Every configuration that can be built has its id in `cs`. */
  predicate CoversBuildable(cs: seq<Consent>, configs: seq<ConsentConfiguration>) {
    forall i :: 0 <= i < |configs| && Buildable(configs[i]) ==> HasId(cs, configs[i].id)
  }

  /** The built set has no repeated id, every consent in it comes from a configuration,
      and every configuration that can be built has its id in the set. */
  lemma {:induction false} BuildSystemConsentsSpec(configs: seq<ConsentConfiguration>, emptyLabelText: string)
    ensures UniqueIds(BuildSystemConsents(configs, emptyLabelText))
    ensures forall k :: 0 <= k < |BuildSystemConsents(configs, emptyLabelText)| ==>
              exists i :: 0 <= i < |configs| &&
                FromConfiguration(configs[i], emptyLabelText) == Some(BuildSystemConsents(configs, emptyLabelText)[k])
    ensures CoversBuildable(BuildSystemConsents(configs, emptyLabelText), configs)
    decreases |configs|
  {
    if configs != [] {
      var init := configs[..|configs| - 1];
      BuildSystemConsentsSpec(init, emptyLabelText);
      BuiltFromStep(configs, emptyLabelText);
      CoversBuildableStep(configs, BuildSystemConsents(init, emptyLabelText), FromConfiguration(configs[|configs| - 1], emptyLabelText));
    }
  }

  /** The position of the first configuration that can be built and has the id `id`. */
  function FirstBuildableWithId(configs: seq<ConsentConfiguration>, id: string): (r: Option<nat>)
    ensures r.Some? ==> r.value < |configs| && Buildable(configs[r.value]) && configs[r.value].id == id
                        && forall j :: 0 <= j < r.value && Buildable(configs[j]) ==> configs[j].id != id
    ensures r.None? ==> forall j :: 0 <= j < |configs| && Buildable(configs[j]) ==> configs[j].id != id
    decreases |configs|
  {
    if configs == [] then None
    else
      var init := configs[..|configs| - 1];
      var last := configs[|configs| - 1];
      assert forall j :: 0 <= j < |init| ==> configs[j] == init[j];
      match FirstBuildableWithId(init, id)
      case Some(i) => Some(i)
      case None => if Buildable(last) && last.id == id then Some(|configs| - 1) else None
  }

  /** `cs` holds, for each of its ids, what `build` gives for the first configuration that
      can be built with that id, and in the order of those configurations. */
  predicate FirstWinsInPageOrder(cs: seq<Consent>, configs: seq<ConsentConfiguration>,
                                 build: ConsentConfiguration -> Option<Consent>) {
    && (forall k :: 0 <= k < |cs| ==>
          FirstBuildableWithId(configs, cs[k].id).Some?
          && build(configs[FirstBuildableWithId(configs, cs[k].id).value]) == Some(cs[k]))
    && (forall k1, k2 :: 0 <= k1 < k2 < |cs| ==>
          FirstBuildableWithId(configs, cs[k1].id).Some? && FirstBuildableWithId(configs, cs[k2].id).Some?
          && FirstBuildableWithId(configs, cs[k1].id).value < FirstBuildableWithId(configs, cs[k2].id).value)
  }

  /** fromXWikiConsentConfiguration as a function value. */
  function BuildStep(emptyLabelText: string): ConsentConfiguration -> Option<Consent> {
    c => FromConfiguration(c, emptyLabelText)
  }

  /** The LinkedHashSet the cache is rebuilt with keeps, for each id, the consent of the
      first configuration with that id that can be built, and keeps them in page order. */
  lemma {:induction false} BuildSystemConsentsFirstWins(configs: seq<ConsentConfiguration>, emptyLabelText: string)
    ensures FirstWinsInPageOrder(BuildSystemConsents(configs, emptyLabelText), configs, BuildStep(emptyLabelText))
    decreases |configs|
  {
    if configs != [] {
      var init := configs[..|configs| - 1];
      var build := BuildStep(emptyLabelText);
      BuildSystemConsentsFirstWins(init, emptyLabelText);
      BuildSystemConsentsSpec(init, emptyLabelText);
      var before := BuildSystemConsents(init, emptyLabelText);
      var last := configs[|configs| - 1];
      assert build(last) == FromConfiguration(last, emptyLabelText);
      match FromConfiguration(last, emptyLabelText)
      case None =>
        FirstWinsKept(configs, before, build);
      case Some(c) =>
        if HasId(before, c.id) {
          FirstWinsKept(configs, before, build);
        } else {
          FirstNotYetBuilt(init, before, c.id);
          FirstWinsAppend(configs, before, build, c);
        }
    }
  }

  /** An id the set built so far does not hold has no buildable configuration yet. */
  lemma FirstNotYetBuilt(configs: seq<ConsentConfiguration>, before: seq<Consent>, id: string)
    requires CoversBuildable(before, configs) && !HasId(before, id)
    ensures FirstBuildableWithId(configs, id).None?
  {
    forall i | 0 <= i < |configs| && Buildable(configs[i])
      ensures configs[i].id != id
    {
      assert HasId(before, configs[i].id);
    }
  }

  /** Appending a configuration keeps the first position of an id already found. */
  lemma FirstBuildableKept(configs: seq<ConsentConfiguration>, id: string)
    requires configs != [] && FirstBuildableWithId(configs[..|configs| - 1], id).Some?
    ensures FirstBuildableWithId(configs, id) == FirstBuildableWithId(configs[..|configs| - 1], id)
  {
  }

  /** An induction step of BuildSystemConsentsFirstWins in which the set does not grow. */
  lemma FirstWinsKept(configs: seq<ConsentConfiguration>, before: seq<Consent>,
                      build: ConsentConfiguration -> Option<Consent>)
    requires configs != []
    requires FirstWinsInPageOrder(before, configs[..|configs| - 1], build)
    ensures FirstWinsInPageOrder(before, configs, build)
  {
    var init := configs[..|configs| - 1];
    forall k | 0 <= k < |before|
      ensures FirstBuildableWithId(configs, before[k].id) == FirstBuildableWithId(init, before[k].id)
      ensures build(configs[FirstBuildableWithId(configs, before[k].id).value]) == Some(before[k])
    {
      FirstBuildableKept(configs, before[k].id);
      var pos := FirstBuildableWithId(init, before[k].id).value;
      assert configs[pos] == init[pos];
    }
  }

  /** An induction step of BuildSystemConsentsFirstWins in which the consent `c` of the last
      configuration, whose id is new, is appended. */
  lemma FirstWinsAppend(configs: seq<ConsentConfiguration>, before: seq<Consent>,
                        build: ConsentConfiguration -> Option<Consent>, c: Consent)
    requires configs != []
    requires build(configs[|configs| - 1]) == Some(c)
    requires Buildable(configs[|configs| - 1]) && c.id == configs[|configs| - 1].id
    requires FirstBuildableWithId(configs[..|configs| - 1], c.id).None?
    requires FirstWinsInPageOrder(before, configs[..|configs| - 1], build)
    ensures FirstWinsInPageOrder(before + [c], configs, build)
  {
    var init := configs[..|configs| - 1];
    var n := |init|;
    var r := before + [c];
    FirstWinsKept(configs, before, build);
    assert FirstBuildableWithId(configs, c.id) == Some(n);
    forall k | 0 <= k < |r|
      ensures FirstBuildableWithId(configs, r[k].id).Some?
              && build(configs[FirstBuildableWithId(configs, r[k].id).value]) == Some(r[k])
    {
      if k < |before| {
        assert r[k] == before[k];
      }
    }
    forall k1, k2 | 0 <= k1 < k2 < |r|
      ensures FirstBuildableWithId(configs, r[k1].id).Some? && FirstBuildableWithId(configs, r[k2].id).Some?
              && FirstBuildableWithId(configs, r[k1].id).value < FirstBuildableWithId(configs, r[k2].id).value
    {
      assert r[k1] == before[k1];
      FirstBuildableKept(configs, before[k1].id);
      if k2 < |before| {
        assert r[k2] == before[k2];
      }
    }
  }

  /** The induction step of BuildSystemConsentsSpec for "comes from a configuration". */
  lemma BuiltFromStep(configs: seq<ConsentConfiguration>, emptyLabelText: string)
    requires configs != []
    requires BuiltFrom(BuildSystemConsents(configs[..|configs| - 1], emptyLabelText), configs[..|configs| - 1], emptyLabelText)
    ensures BuiltFrom(BuildSystemConsents(configs, emptyLabelText), configs, emptyLabelText)
  {
    var init := configs[..|configs| - 1];
    var before := BuildSystemConsents(init, emptyLabelText);
    var r := BuildSystemConsents(configs, emptyLabelText);
    forall k | 0 <= k < |r|
      ensures exists i :: 0 <= i < |configs| && FromConfiguration(configs[i], emptyLabelText) == Some(r[k])
    {
      if k < |before| {
        assert r[k] == before[k];
        var i :| 0 <= i < |init| && FromConfiguration(init[i], emptyLabelText) == Some(before[k]);
        assert configs[i] == init[i];
      } else {
        assert FromConfiguration(configs[|configs| - 1], emptyLabelText) == Some(r[k]);
      }
    }
  }

  /** The induction step of BuildSystemConsentsSpec for "every buildable id is present",
      stated for any set `before` that covers the first configurations and the consent
      `last` the final one builds. */
  lemma CoversBuildableStep(configs: seq<ConsentConfiguration>, before: seq<Consent>, last: Option<Consent>)
    requires configs != []
    requires CoversBuildable(before, configs[..|configs| - 1])
    requires last.Some? <==> Buildable(configs[|configs| - 1])
    requires last.Some? ==> last.value.id == configs[|configs| - 1].id
    ensures CoversBuildable(if last.Some? then AddToSet(before, last.value) else before, configs)
  {
    var init := configs[..|configs| - 1];
    var r := if last.Some? then AddToSet(before, last.value) else before;
    if last.Some? {
      HasIdAddToSet(before, last.value);
    }
    forall i | 0 <= i < |configs| && Buildable(configs[i])
      ensures HasId(r, configs[i].id)
    {
      if i < |init| {
        assert configs[i] == init[i];
      }
    }
  }

  /** Adding to the consent set keeps every id and makes the added consent's id present. */
  lemma HasIdAddToSet(cs: seq<Consent>, c: Consent)
    ensures forall id :: HasId(cs, id) ==> HasId(AddToSet(cs, c), id)
    ensures HasId(AddToSet(cs, c), c.id)
  {
    var r := AddToSet(cs, c);
    forall id | HasId(cs, id) ensures HasId(r, id) {
      var k :| 0 <= k < |cs| && cs[k].id == id;
      assert r[k] == cs[k];
    }
    if !HasId(cs, c.id) {
      assert r[|cs|] == c;
    }
  }

  /** The consent configuration page as last read: its modification date (a timestamp) and
      its consent objects (None when the page holds no consent object list). */
  datatype ConfigurationPage = ConfigurationPage(date: int, consentObjects: Option<seq<ConsentConfiguration>>)

  /** The manager's cache of system consents. */
  class SystemConsentCache {
    var cachedSystemConsents: seq<Consent>
    var lastSystemConsentLoadTime: Option<int>

    predicate Valid()
      reads this
    {
      UniqueIds(cachedSystemConsents)
    }

    /** Nothing loaded yet: the set is empty and there is no load time. */
    constructor ()
      ensures Valid()
      ensures cachedSystemConsents == [] && lastSystemConsentLoadTime.None?
    {
      cachedSystemConsents := [];
      lastSystemConsentLoadTime := None;
    }

    /** updateSystemConsentCache: the set is rebuilt from the page's consent objects, in
        order, and the page's date becomes the load time. */
    method UpdateSystemConsentCache(page: ConfigurationPage, emptyLabelText: string)
      modifies this
      ensures Valid()
      ensures cachedSystemConsents == BuildSystemConsents(page.consentObjects.GetOr([]), emptyLabelText)
      ensures lastSystemConsentLoadTime == Some(page.date)
    {
      var consents: seq<Consent> := [];
      var objects := page.consentObjects.GetOr([]);
      var i := 0;
      while i < |objects|
        invariant 0 <= i <= |objects|
        invariant consents == BuildSystemConsents(objects[..i], emptyLabelText)
      {
        var next := FromConfiguration(objects[i], emptyLabelText);
        assert objects[..i + 1][..i] == objects[..i];
        if next.Some? {
          consents := AddToSet(consents, next.value);
        }
        i := i + 1;
      }
      assert objects[..i] == objects;
      BuildSystemConsentsSpec(objects, emptyLabelText);
      cachedSystemConsents := consents;
      lastSystemConsentLoadTime := Some(page.date);
    }

    /** getSystemConsents: the cache is rebuilt when nothing was loaded yet or the page is
        newer than the last load; a page that cannot be read (None) leaves the cache as it
        is. The cached set is returned. */
    method GetSystemConsents(page: Option<ConfigurationPage>, emptyLabelText: string) returns (r: seq<Consent>)
      requires Valid()
      modifies this
      ensures Valid()
      ensures var reload := page.Some? && (old(lastSystemConsentLoadTime).None? ||
                                           page.value.date > old(lastSystemConsentLoadTime).value);
              if reload then
                cachedSystemConsents == BuildSystemConsents(page.value.consentObjects.GetOr([]), emptyLabelText)
                && lastSystemConsentLoadTime == Some(page.value.date)
              else
                cachedSystemConsents == old(cachedSystemConsents)
                && lastSystemConsentLoadTime == old(lastSystemConsentLoadTime)
      ensures page.Some? ==> lastSystemConsentLoadTime.Some? && page.value.date <= lastSystemConsentLoadTime.value
      ensures r == cachedSystemConsents
    {
      if page.Some? && (lastSystemConsentLoadTime.None? || page.value.date > lastSystemConsentLoadTime.value) {
        UpdateSystemConsentCache(page.value, emptyLabelText);
      }
      r := cachedSystemConsents;
    }
  }

  // ---------------------------------------------------------------------------
  // Queries over the system consents. Each takes `system`, the set getSystemConsents
  // returned for the call.

  /** isValidConsentId: some system consent has exactly this id. */
  function IsValidConsentId(system: seq<Consent>, consentId: string): (r: bool)
    ensures r <==> HasId(system, consentId)
    decreases |system|
  {
    if system == [] then false
    else if system[0].id == consentId then true
    else
      var r := IsValidConsentId(system[1..], consentId);
      assert HasId(system, consentId) ==> HasId(system[1..], consentId) by {
        if HasId(system, consentId) {
          var i :| 0 <= i < |system| && system[i].id == consentId;
          assert system[1..][i - 1] == system[i];
        }
      }
      r
  }

  /** The status a system consent gets for a patient who granted the ids `granted`. */
  function StatusFor(c: Consent, granted: seq<string>): ConsentStatus {
    if c.id in granted then Yes else No
  }

  /** The consents getConsentsForPatient builds, in system order: a copy with status NO
      for every consent not granted and, when `includeGranted`, a copy with status YES
      for every granted one. */
  function ConsentsFor(system: seq<Consent>, granted: seq<string>, includeGranted: bool): seq<Consent>
    decreases |system|
  {
    if system == [] then []
    else
      var before := ConsentsFor(system[..|system| - 1], granted, includeGranted);
      var c := system[|system| - 1];
      if c.id !in granted then before + [Copy(c, No)]
      else if includeGranted then before + [Copy(c, Yes)]
      else before
  }

  /** The "all" result lists every system consent once, in system order, with status YES
      exactly when its id is granted. */
  lemma {:induction false} AllConsentsFor(system: seq<Consent>, granted: seq<string>)
    ensures |ConsentsFor(system, granted, true)| == |system|
    ensures forall i :: 0 <= i < |system| ==>
              ConsentsFor(system, granted, true)[i] == Copy(system[i], StatusFor(system[i], granted))
    decreases |system|
  {
    if system != [] {
      var init := system[..|system| - 1];
      AllConsentsFor(init, granted);
      assert forall i :: 0 <= i < |init| ==> system[i] == init[i];
    }
  }

  /** The "missing" result holds only copies with status NO of system consents whose id
      is not granted; a granted id, configured or not, never shows. */
  lemma {:induction false} MissingConsentsAreUngranted(system: seq<Consent>, granted: seq<string>)
    ensures forall k :: 0 <= k < |ConsentsFor(system, granted, false)| ==>
              ConsentsFor(system, granted, false)[k].status == No
              && ConsentsFor(system, granted, false)[k].id !in granted
              && HasId(system, ConsentsFor(system, granted, false)[k].id)
    decreases |system|
  {
    if system != [] {
      var init := system[..|system| - 1];
      MissingConsentsAreUngranted(init, granted);
      var before := ConsentsFor(init, granted, false);
      var r := ConsentsFor(system, granted, false);
      forall k | 0 <= k < |r|
        ensures r[k].status == No && r[k].id !in granted && HasId(system, r[k].id)
      {
        if k < |before| {
          assert r[k] == before[k];
          var i :| 0 <= i < |init| && init[i].id == before[k].id;
          assert system[i] == init[i];
        } else {
          assert r[k] == Copy(system[|system| - 1], No);
        }
      }
    }
  }

  /** Keeps a consent whose status is NO. */
  function KeepUngranted(c: Consent): Option<Consent> {
    if c.status == No then Some(c) else None
  }

  /** The "missing" result is the "all" result with the granted consents left out: with
      AllConsentsFor, the copies with status NO of the ungranted system consents, each
      once, in system order, with every other field of the system consent kept. */
  lemma {:induction false} MissingIsAllUngranted(system: seq<Consent>, granted: seq<string>)
    ensures ConsentsFor(system, granted, false) == FilterMap(KeepUngranted, ConsentsFor(system, granted, true))
    decreases |system|
  {
    if system != [] {
      var init := system[..|system| - 1];
      MissingIsAllUngranted(init, granted);
      var all := ConsentsFor(system, granted, true);
      var allBefore := ConsentsFor(init, granted, true);
      assert all[..|all| - 1] == allBefore;
    }
  }

  /** An id shows among the missing consents exactly when it is configured and not
      granted. */
  lemma {:induction false} MissingConsentsHaveId(system: seq<Consent>, granted: seq<string>, id: string)
    ensures HasId(ConsentsFor(system, granted, false), id) <==> HasId(system, id) && id !in granted
    decreases |system|
  {
    if system != [] {
      var init := system[..|system| - 1];
      var last := system[|system| - 1];
      MissingConsentsHaveId(init, granted, id);
      var before := ConsentsFor(init, granted, false);
      var r := ConsentsFor(system, granted, false);
      assert forall k :: 0 <= k < |before| ==> r[k] == before[k];
      assert HasId(before, id) ==> HasId(r, id);
      assert HasId(init, id) ==> HasId(system, id) by {
        if HasId(init, id) {
          var i :| 0 <= i < |init| && init[i].id == id;
          assert system[i] == init[i];
        }
      }
      if HasId(system, id) && !HasId(init, id) {
        var i :| 0 <= i < |system| && system[i].id == id;
        assert i == |init|;
      }
      if last.id !in granted {
        assert r[|before|].id == last.id;
      }
      if HasId(r, id) && !HasId(before, id) {
        var k :| 0 <= k < |r| && r[k].id == id;
        assert k == |before|;
      }
    }
  }

  /** getConsentsForPatient: null for a null patient (None); otherwise the consents
      built in one pass over the system consents. */
  method GetConsentsForPatient(system: seq<Consent>, patient: Option<seq<string>>, includeGranted: bool)
    returns (r: Option<seq<Consent>>)
    ensures r.None? <==> patient.None?
    ensures r.Some? ==> r.value == ConsentsFor(system, patient.value, includeGranted)
  {
    if patient.None? {
      return None;
    }
    var granted := patient.value;
    var returned: seq<Consent> := [];
    var i := 0;
    while i < |system|
      invariant 0 <= i <= |system|
      invariant returned == ConsentsFor(system[..i], granted, includeGranted)
    {
      var c := system[i];
      assert system[..i + 1][..i] == system[..i];
      if c.id in granted {
        if includeGranted {
          returned := returned + [Copy(c, Yes)];
        }
      } else {
        returned := returned + [Copy(c, No)];
      }
      i := i + 1;
    }
    assert system[..i] == system;
    return Some(returned);
  }

  /** hasConsent: false for a null patient or an unknown id; otherwise true unless the
      id is among the patient's missing consents. The patient is given by the ids read
      from the record. */
  function HasConsent(system: seq<Consent>, patient: Option<seq<string>>, consentId: string): bool {
    if patient.None? || !IsValidConsentId(system, consentId) then false
    else !HasId(ConsentsFor(system, patient.value, false), consentId)
  }

  /** A patient has a consent exactly when the id is configured and the patient granted it. */
  lemma HasConsentIff(system: seq<Consent>, patient: Option<seq<string>>, consentId: string)
    ensures HasConsent(system, patient, consentId) <==>
              patient.Some? && HasId(system, consentId) && consentId in patient.value
  {
    if patient.Some? {
      MissingConsentsHaveId(system, patient.value, consentId);
    }
  }

  // ---------------------------------------------------------------------------
  // Selecting configured consents by id

  /** The first system consent with the id, if any (the inner loop of selectFromSystem,
      which stops at the first match). */
  function FirstWithId(system: seq<Consent>, id: string): (r: Option<Consent>)
    ensures r.None? <==> !HasId(system, id)
    ensures r.Some? ==> r.value.id == id && r.value in system
    decreases |system|
  {
    if system == [] then None
    else if system[0].id == id then Some(system[0])
    else
      var r := FirstWithId(system[1..], id);
      assert HasId(system, id) ==> HasId(system[1..], id) by {
        if HasId(system, id) {
          var i :| 0 <= i < |system| && system[i].id == id;
          assert system[1..][i - 1] == system[i];
        }
      }
      r
  }

  lemma {:induction false} FirstWithIdAt(system: seq<Consent>, id: string, j: nat)
    requires j < |system| && system[j].id == id
    requires forall k :: 0 <= k < j ==> system[k].id != id
    ensures FirstWithId(system, id) == Some(system[j])
    decreases j
  {
    if j > 0 {
      assert forall k :: 0 <= k < j - 1 ==> system[1..][k] == system[k + 1];
      FirstWithIdAt(system[1..], id, j - 1);
    }
  }

  /** The consents selectFromSystem returns: for each requested id in order, the first
      system consent with that id; ids no consent has are skipped. */
  function SelectFrom(system: seq<Consent>, ids: seq<string>): seq<Consent>
    decreases |ids|
  {
    if ids == [] then []
    else
      var before := SelectFrom(system, ids[..|ids| - 1]);
      match FirstWithId(system, ids[|ids| - 1])
      case None => before
      case Some(c) => before + [c]
  }

  /** convertToIds: the ids of the consents, in order. */
  function ConvertToIds(cs: seq<Consent>): (ids: seq<string>)
    ensures |ids| == |cs|
    ensures forall i :: 0 <= i < |cs| ==> ids[i] == cs[i].id
  {
    seq(|cs|, i requires 0 <= i < |cs| => cs[i].id)
  }

  /** The requested ids that are configured, in request order. */
  function ConfiguredIds(system: seq<Consent>, ids: seq<string>): seq<string>
    decreases |ids|
  {
    if ids == [] then []
    else
      var before := ConfiguredIds(system, ids[..|ids| - 1]);
      if IsValidConsentId(system, ids[|ids| - 1]) then before + [ids[|ids| - 1]] else before
  }

  /** What setPatientConsents stores is the requested ids that are configured, in request
      order, repeats included; unknown ids are dropped. */
  lemma {:induction false} SelectFromKeepsConfiguredIds(system: seq<Consent>, ids: seq<string>)
    ensures ConvertToIds(SelectFrom(system, ids)) == ConfiguredIds(system, ids)
    decreases |ids|
  {
    if ids != [] {
      var init := ids[..|ids| - 1];
      SelectFromKeepsConfiguredIds(system, init);
      var before := SelectFrom(system, init);
      match FirstWithId(system, ids[|ids| - 1])
      case None =>
      case Some(c) =>
        assert ConvertToIds(before + [c]) == ConvertToIds(before) + [c.id];
    }
  }

  /** Every stored id is configured and was requested. */
  lemma {:induction false} ConfiguredIdsSpec(system: seq<Consent>, ids: seq<string>)
    ensures forall k :: 0 <= k < |ConfiguredIds(system, ids)| ==>
              HasId(system, ConfiguredIds(system, ids)[k]) && ConfiguredIds(system, ids)[k] in ids
    ensures forall i :: 0 <= i < |ids| && HasId(system, ids[i]) ==> ids[i] in ConfiguredIds(system, ids)
    decreases |ids|
  {
    if ids != [] {
      var init := ids[..|ids| - 1];
      ConfiguredIdsSpec(system, init);
      assert forall i :: 0 <= i < |init| ==> ids[i] == init[i];
      var before := ConfiguredIds(system, init);
      var r := ConfiguredIds(system, ids);
      assert forall k :: 0 <= k < |before| ==> r[k] == before[k];
      assert forall x :: x in init ==> x in ids;
    }
  }

  /** selectFromSystem: for each id, the system consents are searched until the first
      consent with that id. */
  method SelectFromSystem(system: seq<Consent>, ids: seq<string>) returns (existing: seq<Consent>)
    ensures existing == SelectFrom(system, ids)
  {
    existing := [];
    var i := 0;
    while i < |ids|
      invariant 0 <= i <= |ids|
      invariant existing == SelectFrom(system, ids[..i])
    {
      var id := ids[i];
      assert ids[..i + 1][..i] == ids[..i];
      var j := 0;
      var found := false;
      while j < |system| && !found
        invariant 0 <= j <= |system|
        decreases |system| - j, if found then 0 else 1
        invariant !found ==> forall k :: 0 <= k < j ==> system[k].id != id
        invariant !found ==> existing == SelectFrom(system, ids[..i])
        invariant found ==> existing == SelectFrom(system, ids[..i + 1])
      {
        if system[j].id == id {
          FirstWithIdAt(system, id, j);
          existing := existing + [system[j]];
          found := true;
        } else {
          j := j + 1;
        }
      }
      if !found {
        assert FirstWithId(system, id).None?;
      }
      i := i + 1;
    }
    assert ids[..i] == ids;
  }

  // ---------------------------------------------------------------------------
  // Granting and revoking

  /** Granting: the id is appended unless the list already holds it. */
  function WithGrant(granted: seq<string>, id: string): seq<string> {
    if id in granted then granted else granted + [id]
  }

  /** Revoking: List.remove takes out the first occurrence of the id, if any. */
  function WithoutFirst(granted: seq<string>, id: string): seq<string>
    decreases |granted|
  {
    if granted == [] then []
    else if granted[0] == id then granted[1..]
    else [granted[0]] + WithoutFirst(granted[1..], id)
  }

  /** A grant keeps every id, adds the granted one, never creates a duplicate, and granting
      twice is granting once. */
  lemma GrantSpec(granted: seq<string>, id: string)
    ensures id in WithGrant(granted, id)
    ensures forall x :: x in granted ==> x in WithGrant(granted, id)
    ensures NoDuplicates(granted) ==> NoDuplicates(WithGrant(granted, id))
    ensures WithGrant(WithGrant(granted, id), id) == WithGrant(granted, id)
    ensures id in granted ==> WithGrant(granted, id) == granted
  {
    if id !in granted {
      var r := granted + [id];
      assert r[|granted|] == id;
      assert forall i :: 0 <= i < |granted| ==> r[i] == granted[i];
    }
  }

  /** A revoke of an id the list does not hold leaves the list as it is. */
  lemma {:induction false} RevokeAbsent(granted: seq<string>, id: string)
    requires id !in granted
    ensures WithoutFirst(granted, id) == granted
    decreases |granted|
  {
    if granted != [] {
      RevokeAbsent(granted[1..], id);
      assert granted == [granted[0]] + granted[1..];
    }
  }

  /** A revoke removes the first occurrence, at k, and keeps the other ids in order. */
  lemma {:induction false} RevokeFirst(granted: seq<string>, id: string, k: nat)
    requires k < |granted| && granted[k] == id
    requires forall j :: 0 <= j < k ==> granted[j] != id
    ensures WithoutFirst(granted, id) == granted[..k] + granted[k + 1..]
    decreases k
  {
    if k > 0 {
      var tail := granted[1..];
      RevokeFirst(tail, id, k - 1);
      assert granted[..k] == [granted[0]] + tail[..k - 1];
      assert granted[k + 1..] == tail[k..];
      AppendAssoc([granted[0]], tail[..k - 1], tail[k..]);
    }
  }

  /** In a list without duplicates, a revoke leaves no trace of the id. */
  lemma {:induction false} RevokeWithoutDuplicates(granted: seq<string>, id: string)
    requires NoDuplicates(granted)
    ensures id !in WithoutFirst(granted, id)
    ensures NoDuplicates(WithoutFirst(granted, id))
    ensures forall x :: x in granted && x != id ==> x in WithoutFirst(granted, id)
    decreases |granted|
  {
    if granted != [] {
      var tail := granted[1..];
      assert NoDuplicates(tail) by {
        forall i, j | 0 <= i < j < |tail| ensures tail[i] != tail[j] {
          assert tail[i] == granted[i + 1] && tail[j] == granted[j + 1];
        }
      }
      if granted[0] == id {
        assert forall i :: 0 <= i < |tail| ==> tail[i] == granted[i + 1];
      } else {
        RevokeWithoutDuplicates(tail, id);
        var rest := WithoutFirst(tail, id);
        assert granted[0] !in rest by {
          assert forall i :: 0 <= i < |tail| ==> tail[i] == granted[i + 1];
          WithoutFirstSubset(tail, id);
        }
        var r := [granted[0]] + rest;
        forall i, j | 0 <= i < j < |r| ensures r[i] != r[j] {
          if i == 0 {
            assert r[j] == rest[j - 1];
          } else {
            assert r[i] == rest[i - 1] && r[j] == rest[j - 1];
          }
        }
        forall x | x in granted && x != id ensures x in r {
          if x != granted[0] {
            assert x in tail;
          }
        }
      }
    }
  }

  /** A revoke only removes ids. */
  lemma {:induction false} WithoutFirstSubset(granted: seq<string>, id: string)
    ensures forall x :: x in WithoutFirst(granted, id) ==> x in granted
    decreases |granted|
  {
    if granted != [] && granted[0] != id {
      WithoutFirstSubset(granted[1..], id);
    }
  }

  /** Revoking right after granting an id the list did not hold restores the list. */
  lemma {:induction false} RevokeUndoesGrant(granted: seq<string>, id: string)
    requires id !in granted
    ensures WithoutFirst(WithGrant(granted, id), id) == granted
    decreases |granted|
  {
    if granted != [] {
      var tail := granted[1..];
      RevokeUndoesGrant(tail, id);
      assert (granted + [id])[1..] == tail + [id];
      assert granted == [granted[0]] + tail;
    }
  }

  /** The patient record's consent holder object: the list of granted consent ids. */
  class PatientConsentHolder {
    var granted: seq<string>

    constructor (granted: seq<string>)
      ensures this.granted == granted
    {
      this.granted := granted;
    }
  }

  /** What manageConsent ends in: a returned success flag, or the NullPointerException its
      error handler raises for a null patient. */
  datatype Outcome = Returned(success: bool) | NullPointerThrown

  /** manageConsent(patient, consentId, grant). An unknown id is refused and nothing
      changes. A null patient (null holder) makes reading the holder fail, and the error
      handler then fails itself on the null patient. Otherwise the list is updated in
      place; `saveSucceeds` says whether saving the patient document works, and a failed
      save returns false with the list already changed in memory. */
  method ManageConsent(system: seq<Consent>, holder: PatientConsentHolder?, consentId: string, grant: bool, saveSucceeds: bool)
    returns (outcome: Outcome)
    modifies if holder != null then {holder} else {}
    ensures !IsValidConsentId(system, consentId) ==>
              outcome == Returned(false) && (holder != null ==> holder.granted == old(holder.granted))
    ensures IsValidConsentId(system, consentId) && holder == null ==> outcome == NullPointerThrown
    ensures IsValidConsentId(system, consentId) && holder != null ==>
              outcome == Returned(saveSucceeds)
              && holder.granted == if grant then WithGrant(old(holder.granted), consentId)
                                   else WithoutFirst(old(holder.granted), consentId)
  {
    if !IsValidConsentId(system, consentId) {
      return Returned(false);
    }
    if holder == null {
      return NullPointerThrown;
    }
    var current := holder.granted;
    if grant {
      if consentId !in current {
        current := current + [consentId];
      }
    } else {
      current := WithoutFirst(current, consentId);
    }
    holder.granted := current;
    return Returned(saveSucceeds);
  }

  /** setPatientConsents(patient, consents): the holder gets the ids of the requested
      consents that are configured, in request order. A null patient fails (false, nothing
      stored); a failed save returns false after the holder was updated in memory. */
  method SetPatientConsents(system: seq<Consent>, holder: PatientConsentHolder?, requested: seq<string>, saveSucceeds: bool)
    returns (ok: bool)
    modifies if holder != null then {holder} else {}
    ensures holder == null ==> !ok
    ensures holder != null ==> ok == saveSucceeds && holder.granted == ConfiguredIds(system, requested)
  {
    var existing := SelectFromSystem(system, requested);
    if holder == null {
      return false;
    }
    SelectFromKeepsConfiguredIds(system, requested);
    holder.granted := ConvertToIds(existing);
    return saveSucceeds;
  }

  // ---------------------------------------------------------------------------
  // fromJSON

  /** fromJSON: null stays null; the array's objects are read in order (other elements
      are skipped) with `decode` standing for DefaultConsent's JSON constructor, and a
      consent whose id is already present is not added again. */
  function FromJson(items: Option<seq<Json>>, decode: map<string, Json> -> Consent): (r: Option<seq<Consent>>)
    ensures r.None? <==> items.None?
  {
    match items
    case None => None
    case Some(xs) => Some(ConsentsFromJson(xs, decode))
  }

  function ConsentsFromJson(xs: seq<Json>, decode: map<string, Json> -> Consent): seq<Consent>
    decreases |xs|
  {
    if xs == [] then []
    else
      var before := ConsentsFromJson(xs[..|xs| - 1], decode);
      match xs[|xs| - 1]
      case JObject(fields) => AddToSet(before, decode(fields))
      case _ => before
  }

  /** The consents read from JSON have distinct ids, each decoded from one of the array's
      objects, and every object of the array is represented by a consent with its id. */
  lemma {:induction false} ConsentsFromJsonSpec(xs: seq<Json>, decode: map<string, Json> -> Consent)
    ensures UniqueIds(ConsentsFromJson(xs, decode))
    ensures forall k :: 0 <= k < |ConsentsFromJson(xs, decode)| ==>
              exists i :: 0 <= i < |xs| && xs[i].JObject? && ConsentsFromJson(xs, decode)[k] == decode(xs[i].fields)
    ensures forall i :: 0 <= i < |xs| && xs[i].JObject? ==>
              HasId(ConsentsFromJson(xs, decode), decode(xs[i].fields).id)
    decreases |xs|
  {
    if xs != [] {
      var init := xs[..|xs| - 1];
      ConsentsFromJsonSpec(init, decode);
      var before := ConsentsFromJson(init, decode);
      var r := ConsentsFromJson(xs, decode);
      forall k | 0 <= k < |r|
        ensures exists i :: 0 <= i < |xs| && xs[i].JObject? && r[k] == decode(xs[i].fields)
      {
        if k < |before| {
          assert r[k] == before[k];
          var i :| 0 <= i < |init| && init[i].JObject? && before[k] == decode(init[i].fields);
          assert xs[i] == init[i];
        } else {
          assert xs[|xs| - 1].JObject? && r[k] == decode(xs[|xs| - 1].fields);
        }
      }
      forall i | 0 <= i < |xs| && xs[i].JObject?
        ensures HasId(r, decode(xs[i].fields).id)
      {
        if i < |init| {
          assert init[i] == xs[i];
          var k :| 0 <= k < |before| && before[k].id == decode(xs[i].fields).id;
          assert r[k] == before[k];
        } else if !HasId(before, decode(xs[i].fields).id) {
          assert r[|before|] == decode(xs[i].fields);
        }
      }
    }
  }
}
