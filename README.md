# PhenoTips core, modelled in Dafny

This project models six pieces of PhenoTips, a clinical phenotyping application built on
XWiki, and proves properties of the model. The host platform (XWiki documents and objects,
the DOM, the vector-graphics library, the JSON and date libraries) is abstracted away. What
remains is the bookkeeping those pieces do.

- `consents.dfy` (module `Consents`) models the patient consent manager
  (PhenoTipsPatientConsentManager).
  - The system consents are configured on a wiki page and kept in a cache. The cache is
    rebuilt only when the page is newer than the last load.
  - A patient's granted consent ids are a list. Grant and revoke update that list in place.
  - The module also covers:
    - the "all" and "missing" consent sets of a patient;
    - `hasConsent` and consent-id validation;
    - the filtering of requested ids to configured ones;
    - the cleaning of rendered labels and descriptions;
    - reading consents from JSON.
- `measurements.dfy` (module `Measurements`) models the patient measurements controller
  (MeasurementsController).
  - It covers:
    - loading measurement entries from document objects;
    - saving them back;
    - writing them to JSON, with the computed standard deviation and percentile;
    - reading them from JSON with de-duplication by (date, type, side).
  - Date formatting and parsing, the JSON library's conversions and the measurement
    handlers' numerics are parameters (`Library`).
- `translations.dfy` (module `Translations`) models the translation bundle read from the root
  class loader (RootClassLoaderTranslationBundle).
  - It covers the resource name of a locale.
  - It merges all resources of that name so that the first resource on the class path wins.
  - It fills a bundle with the string-to-string entries.
- `audit.dfy` (module `Audit`) models the export audit-event processor
  (ExportTypeAuditEventProcessor). It records the export format of an export event.
- `gene_text.dfy` (module `GeneVariantText`) and `gene_editor.dfy` (module `GeneEditor`) model
  the gene and variant table editor (extraGeneVariantData.js).
  - `gene_text.dfy` holds the string helpers:
    - the digit-only input filter;
    - JavaScript's `parseInt`, `indexOf`, `lastIndexOf` and `substring`;
    - index extraction from class names, element ids and table ids;
    - the placeholder rewriting of new rows;
    - the header count update.
  - `gene_editor.dfy` holds the rest:
    - the shared gene and variant counters of a group of tables (class `GroupOptions`);
    - the editor of one table (class `Editor`): adding and deleting genes and variants,
      with the renumbering that follows;
    - the start-up computation of each group's counters.
- `node_visuals.dfy` (module `NodeVisuals`) models the base class of pedigree node graphics
  (abstractNodeVisuals.js): position, grown and selected state.
- `common.dfy` (module `Common`) and `json.dfy` (module `JsonModel`) hold shared definitions:
  - `Option` and `Result`;
  - the generic `Map` and `FilterMap` over sequences;
  - JSON values with org.json's `put` semantics. A null removes the key, and a non-finite
    number is refused.

## Model

Functions that define an operation without a contract of their own are covered by the rows of the lemmas and loop methods stated about them. These are `GeneVariantText.Rewrite`, `GeneVariantText.ParseInt`, `GeneVariantText.ReplaceCount`, `GeneEditor.WithNewVariant`, `GeneEditor.WithoutVariant`, `GeneEditor.Grouped` and `Measurements.WriteJson`. `JsonModel.Put` models org.json's `put`; org.json is not part of this model. Its contract states that a null removes the key, a non-finite number fails, and any other value is stored with the other keys kept.

| member | source | states |
|---|---|---|
| Audit.Process | components/security/audit/backend/src/main/java/org/phenotips/security/audit/internal/ExportTypeAuditEventProcessor.java:49-54 | An export event without extra information gets the request's format as its extra information, with user, ip, action, entity and time copied; every other event is returned unchanged. |
| Audit.ProcessChangesOnlyMissingExportFormat | components/security/audit/backend/src/main/java/org/phenotips/security/audit/internal/ExportTypeAuditEventProcessor.java:49-54 | The result differs from the event only on an export event without extra information and a present format, and then only in the extra information. |
| Audit.ProcessIdempotent | components/security/audit/backend/src/main/java/org/phenotips/security/audit/internal/ExportTypeAuditEventProcessor.java:49-54 | Processing twice with the same format equals processing once. |
| NodeVisuals.AbstractNodeVisuals.constructor | components/pedigree/resources/src/main/resources/pedigree/view/abstractNodeVisuals.js:14-23 | After initialisation getX and getY are the given coordinates, there is no hoverbox, the node is not grown and the selected flag is still undefined. |
| NodeVisuals.AbstractNodeVisuals.GetBottomY | components/pedigree/resources/src/main/resources/pedigree/view/abstractNodeVisuals.js:84-86 | The bottom of the node is its y coordinate. |
| NodeVisuals.AbstractNodeVisuals.GetNodeMenu | components/pedigree/resources/src/main/resources/pedigree/view/abstractNodeVisuals.js:38-40 | The base class has no menu. |
| NodeVisuals.AbstractNodeVisuals.ContainsXY | components/pedigree/resources/src/main/resources/pedigree/view/abstractNodeVisuals.js:136-138 | The base class contains no point. |
| NodeVisuals.AbstractNodeVisuals.SetPos | components/pedigree/resources/src/main/resources/pedigree/view/abstractNodeVisuals.js:97-102 | The position becomes (x, y), the other state is unchanged, and a given callback is invoked exactly once. |
| NodeVisuals.AbstractNodeVisuals.Grow | components/pedigree/resources/src/main/resources/pedigree/view/abstractNodeVisuals.js:109-111 | The node is grown afterwards; position, selection and hoverbox are unchanged. |
| NodeVisuals.AbstractNodeVisuals.Shrink | components/pedigree/resources/src/main/resources/pedigree/view/abstractNodeVisuals.js:118-120 | The node is not grown afterwards; position, selection and hoverbox are unchanged. |
| NodeVisuals.AbstractNodeVisuals.SetSelected | components/pedigree/resources/src/main/resources/pedigree/view/abstractNodeVisuals.js:156-158 | isSelected returns the given flag afterwards; nothing else changes. |
| GeneVariantText.DigitsOnly | components/widgets/resources/src/main/resources/resources/uicomponents/widgets/extraGeneVariantData.js:460 | The filter's output has only digits and is no longer than the input. |
| GeneVariantText.DigitsOnlyKeepsDigitText | components/widgets/resources/src/main/resources/resources/uicomponents/widgets/extraGeneVariantData.js:460 | Text made only of digits passes the filter unchanged. |
| GeneVariantText.DigitsOnlyIdempotent | components/widgets/resources/src/main/resources/resources/uicomponents/widgets/extraGeneVariantData.js:460 | Filtering twice equals filtering once. |
| GeneVariantText.DigitsOnlyConcat | components/widgets/resources/src/main/resources/resources/uicomponents/widgets/extraGeneVariantData.js:460 | The filter distributes over concatenation, so the input's digits come out in their order. |
| GeneVariantText.DigitsOnlyCons | components/widgets/resources/src/main/resources/resources/uicomponents/widgets/extraGeneVariantData.js:460 | A leading digit is kept and a leading non-digit is dropped. |
| GeneVariantText.NatToString | components/widgets/resources/src/main/resources/resources/uicomponents/widgets/extraGeneVariantData.js:178 | The decimal text of a number is non-empty and made of digits. |
| GeneVariantText.DigitsValueOfNatToString | components/widgets/resources/src/main/resources/resources/uicomponents/widgets/extraGeneVariantData.js:178 | The decimal text of a number has that number as its value. |
| GeneVariantText.LeadingDigitsSpec | components/widgets/resources/src/main/resources/resources/uicomponents/widgets/extraGeneVariantData.js:108 | The leading-digit run parseInt reads is a prefix of digits ending at the first non-digit. |
| GeneVariantText.TrimStartIsSuffix | components/widgets/resources/src/main/resources/resources/uicomponents/widgets/extraGeneVariantData.js:108 | The white space parseInt skips is only leading white space. |
| GeneVariantText.ParseIntOfNatToString | components/widgets/resources/src/main/resources/resources/uicomponents/widgets/extraGeneVariantData.js:108 | parseInt reads back the decimal text of any natural number. |
| GeneVariantText.ParseIntWithoutMinusIsNatural | components/widgets/resources/src/main/resources/resources/uicomponents/widgets/extraGeneVariantData.js:108 | A text with no minus sign never parses to a negative number. |
| GeneVariantText.IndexOf | components/widgets/resources/src/main/resources/resources/uicomponents/widgets/extraGeneVariantData.js:532 | indexOf gives -1 or the position of the first occurrence. |
| GeneVariantText.LastIndexOfSpec | components/widgets/resources/src/main/resources/resources/uicomponents/widgets/extraGeneVariantData.js:108 | lastIndexOf gives -1 or the position of the last occurrence. |
| GeneVariantText.SuffixAfterLastDashSpec | components/widgets/resources/src/main/resources/resources/uicomponents/widgets/extraGeneVariantData.js:108 | The index read from a class name is the suffix after its last '-', has no '-', and is the whole name when there is none. |
| GeneVariantText.VariantIndexFromIdParts | components/widgets/resources/src/main/resources/resources/uicomponents/widgets/extraGeneVariantData.js:532 | The text between the first and last '_' of `<class>_<index>_<word>` is the index when none of the parts contains '_'. |
| GeneVariantText.ButtonIdsRoundTrip | components/widgets/resources/src/main/resources/resources/uicomponents/widgets/extraGeneVariantData.js:528-532 | The edit and edit-done handlers recover the variant index the buttons were created with. |
| GeneVariantText.VariantIndexFromIdDegenerate | components/widgets/resources/src/main/resources/resources/uicomponents/widgets/extraGeneVariantData.js:532 | An id without '_' gives the empty text, and one with a single '_' gives that '_'. |
| GeneVariantText.SuffixAfterLastDashOf | components/widgets/resources/src/main/resources/resources/uicomponents/widgets/extraGeneVariantData.js:649 | The suffix after the last dash of `prefix-rest` is `rest` when `rest` has no dash. |
| GeneVariantText.SplitAtLastUnderscore | components/widgets/resources/src/main/resources/resources/uicomponents/widgets/extraGeneVariantData.js:651-652 | Splitting `left_right` at its last '_' gives both parts back when `right` has no '_'. |
| GeneVariantText.ClassNamesFromTableIdParts | components/widgets/resources/src/main/resources/resources/uicomponents/widgets/extraGeneVariantData.js:648-652 | The gene and variant class names are recovered from a table id `prefix-gene_variant`. |
| GeneVariantText.ClassNameFromHref | components/widgets/resources/src/main/resources/resources/uicomponents/widgets/extraGeneVariantData.js:278-284 | The `classname=` value found in an add link is non-empty and has no '&'. None is found exactly when no position of the link starts `classname=` followed by a character other than '&'. |
| GeneVariantText.NonAmpersandPrefix | components/widgets/resources/src/main/resources/resources/uicomponents/widgets/extraGeneVariantData.js:278 | The `[^&]+` group takes a prefix without '&'. That prefix is non-empty when the text does not start with '&'. |
| GeneVariantText.MarkerAtSpec | components/widgets/resources/src/main/resources/resources/uicomponents/widgets/extraGeneVariantData.js:353 | A matched placeholder is a non-empty prefix of the row, and a gene row only matches index placeholders. |
| GeneVariantText.MarkerStart | components/widgets/resources/src/main/resources/resources/uicomponents/widgets/extraGeneVariantData.js:353 | Only '_', '=' and '$' can start a placeholder. |
| GeneVariantText.ScanCoversInput | components/widgets/resources/src/main/resources/resources/uicomponents/widgets/extraGeneVariantData.js:353 | The pieces the global replace scans are together the whole row. |
| GeneVariantText.RewriteReplacesOnlyMarkers | components/widgets/resources/src/main/resources/resources/uicomponents/widgets/extraGeneVariantData.js:336-356 | For gene and variant rows alike, the rewrite replaces exactly the scanned placeholders and keeps every other character. |
| GeneVariantText.ObjectPlaceholderMatched | components/widgets/resources/src/main/resources/resources/uicomponents/widgets/extraGeneVariantData.js:353 | In a variant row, `${object.xWikiClass.name}` and `${object.number}` (their `.` any character but a line terminator) at the start of the text are matched whole. |
| GeneVariantText.VariantPlaceholderRewritten | components/widgets/resources/src/main/resources/resources/uicomponents/widgets/extraGeneVariantData.js:336-356 | In a variant row, every matchable placeholder at the start is replaced: `_<digits>_` and `=<digits>&` by the variant index, `${object.xWikiClass.name}` by the variant class name, `${object.number}` by the variant index. The rewrite goes on after it. |
| GeneVariantText.ClassNameRefRewritten | components/widgets/resources/src/main/resources/resources/uicomponents/widgets/extraGeneVariantData.js:342-343 | `${object.xWikiClass.name}` in a variant row becomes the variant class name. |
| GeneVariantText.NumberRefRewritten | components/widgets/resources/src/main/resources/resources/uicomponents/widgets/extraGeneVariantData.js:344-345 | `${object.number}` in a variant row becomes the new variant index. |
| GeneVariantText.VariantRowPlaceholderReplaced | components/widgets/resources/src/main/resources/resources/uicomponents/widgets/extraGeneVariantData.js:336-356 | In a variant row, one placeholder between text without `_`, `=` or `$` becomes its replacement, and the text around it is kept. |
| GeneVariantText.RewriteWithoutMarkers | components/widgets/resources/src/main/resources/resources/uicomponents/widgets/extraGeneVariantData.js:175-184 | A row in which no placeholder starts is left unchanged. |
| GeneVariantText.GeneRowPlaceholderReplaced | components/widgets/resources/src/main/resources/resources/uicomponents/widgets/extraGeneVariantData.js:175-184 | In a gene row, `_<digits>_` and `=<digits>&` between plain text become `_<geneIndex>_` and `=<geneIndex>&`, and the text around them is kept. |
| GeneVariantText.IndexPlaceholderMatched | components/widgets/resources/src/main/resources/resources/uicomponents/widgets/extraGeneVariantData.js:175 | An index placeholder at the start of a row is matched whole. |
| GeneVariantText.IndexPlaceholderRewritten | components/widgets/resources/src/main/resources/resources/uicomponents/widgets/extraGeneVariantData.js:175-184 | An index placeholder at the start of a row is replaced with the new index. |
| GeneVariantText.ReplacementMatchesAgain | components/widgets/resources/src/main/resources/resources/uicomponents/widgets/extraGeneVariantData.js:175-184 | A replaced index placeholder is matched again as the same kind of placeholder. |
| GeneVariantText.GeneRowRewriteIdempotent | components/widgets/resources/src/main/resources/resources/uicomponents/widgets/extraGeneVariantData.js:175-184 | Rewriting a gene row twice with the same numeric index equals rewriting it once. |
| GeneVariantText.LazyClose | components/widgets/resources/src/main/resources/resources/uicomponents/widgets/extraGeneVariantData.js:254 | The lazy `.+?` group ends at a ')' after at least one character. |
| GeneVariantText.FirstCloseFromPlain | components/widgets/resources/src/main/resources/resources/uicomponents/widgets/extraGeneVariantData.js:254 | The search stops at the first ')' when no line terminator comes before it. |
| GeneVariantText.LazyCloseOf | components/widgets/resources/src/main/resources/resources/uicomponents/widgets/extraGeneVariantData.js:254 | After `(<previous>)`, the lazy group closes at the ')' that follows a non-empty count without ')' or line terminator. |
| GeneVariantText.HeaderCountUpdated | components/widgets/resources/src/main/resources/resources/uicomponents/widgets/extraGeneVariantData.js:254 | A header `<text> (<count>)<more>` gets the new count in the parentheses, and all other text is kept. |
| GeneVariantText.GroupReplaced | components/widgets/resources/src/main/resources/resources/uicomponents/widgets/extraGeneVariantData.js:328 | One parenthesised group is replaced with the new count. |
| GeneVariantText.GeneCountOfLabelRoundTrip | components/widgets/resources/src/main/resources/resources/uicomponents/widgets/extraGeneVariantData.js:247 | The gene number is read back from a variant label `<gene>.<k>`. |
| GeneVariantText.NatToStringHasNoDot | components/widgets/resources/src/main/resources/resources/uicomponents/widgets/extraGeneVariantData.js:247 | A number's decimal text has no '.', so the label's gene number ends at the first '.'. |
| GeneEditor.IncreasingHasNoDuplicates | components/widgets/resources/src/main/resources/resources/uicomponents/widgets/extraGeneVariantData.js:169 | Indices handed out in strictly increasing order are pairwise distinct. |
| GeneEditor.Succ | components/widgets/resources/src/main/resources/resources/uicomponents/widgets/extraGeneVariantData.js:169 | `++` keeps NaN and otherwise adds one. |
| GeneEditor.GroupOptions.constructor | components/widgets/resources/src/main/resources/resources/uicomponents/widgets/extraGeneVariantData.js:629 | The shared counters start from the given values, and no index has been issued yet. |
| GeneEditor.GroupOptions.NextGeneIndex | components/widgets/resources/src/main/resources/resources/uicomponents/widgets/extraGeneVariantData.js:169 | Hands out the current gene counter and advances it. Issued indices stay strictly increasing and below the counter. |
| GeneEditor.GroupOptions.NextVariantIndex | components/widgets/resources/src/main/resources/resources/uicomponents/widgets/extraGeneVariantData.js:302 | Hands out the current variant counter and advances it, with the same invariant. |
| GeneEditor.Relabel | components/widgets/resources/src/main/resources/resources/uicomponents/widgets/extraGeneVariantData.js:248-251 | Relabelling keeps the number of variants and labels them `<gene>.1` .. `<gene>.k`. |
| GeneEditor.Editor.RelabelVariants | components/widgets/resources/src/main/resources/resources/uicomponents/widgets/extraGeneVariantData.js:248-251 | The relabelling loop computes Relabel. |
| GeneEditor.Editor.RenumberGenes | components/widgets/resources/src/main/resources/resources/uicomponents/widgets/extraGeneVariantData.js:131-139 | The renumbering loop computes Renumber, whose numbering RenumberIsNumbering states. |
| GeneEditor.RenumberIsNumbering | components/widgets/resources/src/main/resources/resources/uicomponents/widgets/extraGeneVariantData.js:131-139 | After a gene delete the genes are numbered 1..n in table order and gene i's variants are labelled i.1, i.2, ...; nothing else changes. |
| GeneEditor.RenumberWellNumbered | components/widgets/resources/src/main/resources/resources/uicomponents/widgets/extraGeneVariantData.js:131-139 | Renumbering a correctly numbered table leaves it as it is. |
| GeneEditor.WellNumberedReadsBack | components/widgets/resources/src/main/resources/resources/uicomponents/widgets/extraGeneVariantData.js:131-139 | In a numbered table, each variant label leads back to its gene's row-count text, which parses to the gene's position. |
| GeneEditor.NumberingKeepsHeaders | components/widgets/resources/src/main/resources/resources/uicomponents/widgets/extraGeneVariantData.js:131-139 | Renumbering keeps a variant header exactly where there are variants. |
| GeneEditor.UpdateKeepsNumbering | components/widgets/resources/src/main/resources/resources/uicomponents/widgets/extraGeneVariantData.js:326-333 | Replacing one gene by a row numbered and labelled the same keeps the table numbered. |
| GeneEditor.UpdateKeepsHeaders | components/widgets/resources/src/main/resources/resources/uicomponents/widgets/extraGeneVariantData.js:311-331 | Replacing one gene keeps headers exactly where there are variants. |
| GeneEditor.RemoveGene | components/widgets/resources/src/main/resources/resources/uicomponents/widgets/extraGeneVariantData.js:119-129 | A position within the table removes one row; a position past the end removes nothing. |
| GeneEditor.WithoutVariantKeepsHeader | components/widgets/resources/src/main/resources/resources/uicomponents/widgets/extraGeneVariantData.js:223-256 | Deleting a variant keeps the gene's number and other variants in order, and keeps the header exactly while variants remain. |
| GeneEditor.WithoutVariantKeepsNumbering | components/widgets/resources/src/main/resources/resources/uicomponents/widgets/extraGeneVariantData.js:248-251 | After deleting a variant of a numbered gene, the rest are labelled `<gene>.1` .. `<gene>.k`. |
| GeneEditor.WithoutVariantHeaderCount | components/widgets/resources/src/main/resources/resources/uicomponents/widgets/extraGeneVariantData.js:253-255 | Deleting one of several variants writes the remaining count into the header's parentheses. |
| GeneEditor.WithNewVariantKeepsNumbering | components/widgets/resources/src/main/resources/resources/uicomponents/widgets/extraGeneVariantData.js:326-333 | A new variant is labelled `<gene>.<k+1>` after its k predecessors, which keep their labels. |
| GeneEditor.WithNewVariantHeaderCount | components/widgets/resources/src/main/resources/resources/uicomponents/widgets/extraGeneVariantData.js:326-330 | Adding a non-first variant writes existing + 1 into the header's parentheses. |
| GeneEditor.ClassNameOrDefault | components/widgets/resources/src/main/resources/resources/uicomponents/widgets/extraGeneVariantData.js:10-11 | A missing or empty class name falls back to the default. |
| GeneEditor.Editor.constructor | components/widgets/resources/src/main/resources/resources/uicomponents/widgets/extraGeneVariantData.js:5-24 | The editor shares the group's counters, uses the given or default class names, and starts with no listener. |
| GeneEditor.Editor.AddGene | components/widgets/resources/src/main/resources/resources/uicomponents/widgets/extraGeneVariantData.js:153-207 | A gene from another table or a disabled trigger changes nothing. Otherwise one row is appended, numbered existing + 1, indexed with the next gene index, and its row has the index placeholders rewritten. |
| GeneEditor.Editor.DeleteGene | components/widgets/resources/src/main/resources/resources/uicomponents/widgets/extraGeneVariantData.js:118-140 | The gene at the position is removed and the remaining genes and their variants are renumbered. |
| GeneEditor.Editor.DeleteVariant | components/widgets/resources/src/main/resources/resources/uicomponents/widgets/extraGeneVariantData.js:223-256 | Deleting a variant changes only its gene, which loses that variant. The table stays numbered, and a position with no variant changes nothing. |
| GeneEditor.Editor.AddVariant | components/widgets/resources/src/main/resources/resources/uicomponents/widgets/extraGeneVariantData.js:270-356 | A disabled trigger or a link without `classname=` changes nothing. Otherwise the variant is appended with the next variant index and the rewritten templates, and the table stays numbered. |
| GeneEditor.Editor.AreaEditData | components/widgets/resources/src/main/resources/resources/uicomponents/widgets/extraGeneVariantData.js:63-67 | The index after the last '-' of the edit-row class is registered once. |
| GeneEditor.GroupOf | components/widgets/resources/src/main/resources/resources/uicomponents/widgets/extraGeneVariantData.js:619 | The group of a class name is found, or the position past the end. |
| GeneEditor.GroupedIsPartition | components/widgets/resources/src/main/resources/resources/uicomponents/widgets/extraGeneVariantData.js:615-625 | Grouping by class attribute is a partition: non-empty groups of one class each, distinct classes, and every table in some group. |
| GeneEditor.GroupTables | components/widgets/resources/src/main/resources/resources/uicomponents/widgets/extraGeneVariantData.js:615-625 | The grouping loop computes that partition. |
| GeneEditor.JsMax | components/widgets/resources/src/main/resources/resources/uicomponents/widgets/extraGeneVariantData.js:636 | Math.max with NaN gives NaN, and otherwise the larger value. |
| GeneEditor.GeneCandidates | components/widgets/resources/src/main/resources/resources/uicomponents/widgets/extraGeneVariantData.js:632-637 | One gene candidate per table of the group. |
| GeneEditor.MaxCandidateBounds | components/widgets/resources/src/main/resources/resources/uicomponents/widgets/extraGeneVariantData.js:630-637 | The gene counter is NaN iff some candidate is NaN; otherwise it bounds every candidate and the start value, and equals one of them. |
| GeneEditor.GroupGeneIndexBounds | components/widgets/resources/src/main/resources/resources/uicomponents/widgets/extraGeneVariantData.js:629-637 | The gene counter is NaN iff some table's candidate is NaN. Otherwise it is at least 0 and every table's candidate, and is 0 or one of them. |
| GeneEditor.MaxFrom | components/widgets/resources/src/main/resources/resources/uicomponents/widgets/extraGeneVariantData.js:640-645 | The running maximum is at least its start. |
| GeneEditor.MaxFromBounds | components/widgets/resources/src/main/resources/resources/uicomponents/widgets/extraGeneVariantData.js:640-645 | The running maximum bounds every index and is the start or one of them. |
| GeneEditor.MaxOfAll | components/widgets/resources/src/main/resources/resources/uicomponents/widgets/extraGeneVariantData.js:640-645 | The maximum over several tables is at least its start. |
| GeneEditor.MaxOfAllBounds | components/widgets/resources/src/main/resources/resources/uicomponents/widgets/extraGeneVariantData.js:640-645 | That maximum bounds every index of every table and is the start or one of them. |
| GeneEditor.GroupVariantIndexBounds | components/widgets/resources/src/main/resources/resources/uicomponents/widgets/extraGeneVariantData.js:639-645 | The variant counter before the final increment is at least -1, bounds every shown variant index, and is -1 or one of them. |
| GeneEditor.GroupCounters | components/widgets/resources/src/main/resources/resources/uicomponents/widgets/extraGeneVariantData.js:629-655 | The start-up loops compute the group's gene counter and one more than the largest variant index. |
| GeneEditor.TableMaxVariantIndex | components/widgets/resources/src/main/resources/resources/uicomponents/widgets/extraGeneVariantData.js:640-645 | The inner loop computes the maximum of the start value and the table's variant indices. |
| GeneEditor.InitGroupOptions | components/widgets/resources/src/main/resources/resources/uicomponents/widgets/extraGeneVariantData.js:627-655 | The group's shared counters after start-up, with an empty issue history. |
| GeneEditor.EditorClassNamesFromId | components/widgets/resources/src/main/resources/resources/uicomponents/widgets/extraGeneVariantData.js:647-653 | An editor gets back the two class names its table id was built from. |
| Consents.AddToSet | components/consents/api/src/main/java/org/phenotips/consents/internal/PhenoTipsPatientConsentManager.java:156-167 | Adding to the consent set keeps ids unique: a consent whose id is present is not added, any other is appended. |
| Consents.RemoveAll | components/consents/api/src/main/java/org/phenotips/consents/internal/PhenoTipsPatientConsentManager.java:236-237 | `replace` never lengthens the text. |
| Consents.RemoveAllWithoutPattern | components/consents/api/src/main/java/org/phenotips/consents/internal/PhenoTipsPatientConsentManager.java:236-237 | A text without the pattern's first character is unchanged by `replace`. |
| Consents.RemoveAllOccurrence | components/consents/api/src/main/java/org/phenotips/consents/internal/PhenoTipsPatientConsentManager.java:236-237 | An occurrence after text that cannot start one is removed, and the rest is processed the same way. |
| Consents.MacroEndFrom | components/consents/api/src/main/java/org/phenotips/consents/internal/PhenoTipsPatientConsentManager.java:239 | The lazy tail of the macro pattern ends just after a "}}". |
| Consents.MacroAt | components/consents/api/src/main/java/org/phenotips/consents/internal/PhenoTipsPatientConsentManager.java:239 | A macro match is at least "{{html}}" long and lies within the text. |
| Consents.StripHtmlMacros | components/consents/api/src/main/java/org/phenotips/consents/internal/PhenoTipsPatientConsentManager.java:239 | Removing macros never lengthens the text. |
| Consents.StripHtmlMacrosWithoutBraces | components/consents/api/src/main/java/org/phenotips/consents/internal/PhenoTipsPatientConsentManager.java:239 | A text without '{' holds no macro and is unchanged. |
| Consents.StripHtmlMacrosRemovesMacro | components/consents/api/src/main/java/org/phenotips/consents/internal/PhenoTipsPatientConsentManager.java:239 | A `{{html...}}` or `{{/html...}}` macro is removed, and the text before it is kept. |
| Consents.MacroAtMacro | components/consents/api/src/main/java/org/phenotips/consents/internal/PhenoTipsPatientConsentManager.java:239 | Such a macro is matched exactly, up to its first "}}". |
| Consents.MacroEndFromBody | components/consents/api/src/main/java/org/phenotips/consents/internal/PhenoTipsPatientConsentManager.java:239 | The lazy tail stops at the first "}}" after a body without '}' or line terminator. |
| Consents.CleanDescription | components/consents/api/src/main/java/org/phenotips/consents/internal/PhenoTipsPatientConsentManager.java:231-242 | Null stays null, and a cleaned text is never longer. |
| Consents.CleanDescriptionOfPlainText | components/consents/api/src/main/java/org/phenotips/consents/internal/PhenoTipsPatientConsentManager.java:231-242 | Text without '<' and '{' comes out unchanged. |
| Consents.StripWrapper | components/consents/api/src/main/java/org/phenotips/consents/internal/PhenoTipsPatientConsentManager.java:235-238 | The four replacements, in their order, strip an outer and an inner pair of tags around text without tags. |
| Consents.CleanDescriptionOfWrappedText | components/consents/api/src/main/java/org/phenotips/consents/internal/PhenoTipsPatientConsentManager.java:231-242 | The `<div><p>`...`</p></div>` wrapper around plain text is removed when stripParagraphTags is set, and kept when it is not. |
| Consents.FromConfiguration | components/consents/api/src/main/java/org/phenotips/consents/internal/PhenoTipsPatientConsentManager.java:175-200 | A configuration fails to build exactly when it affects fields and the field lookup fails. A built consent has the page's id, the intToBool flags, and field lists exactly when it affects fields. Its description is the cleaned rendered description, and stays null (None) when that is null. |
| Consents.FromConfigurationLabel | components/consents/api/src/main/java/org/phenotips/consents/internal/PhenoTipsPatientConsentManager.java:179-183 | The label is the cleaned rendered label, or `<id> <empty-label text>` when that is missing or empty. |
| Consents.BuildSystemConsentsSpec | components/consents/api/src/main/java/org/phenotips/consents/internal/PhenoTipsPatientConsentManager.java:156-167 | The rebuilt set has unique ids. Each member comes from a configuration, and every configuration that builds has its id present. |
| Consents.FirstBuildableWithId | components/consents/api/src/main/java/org/phenotips/consents/internal/PhenoTipsPatientConsentManager.java:156-163 | Gives the position of the first configuration that builds with the id, or none when no configuration with that id builds. |
| Consents.BuildSystemConsentsFirstWins | components/consents/api/src/main/java/org/phenotips/consents/internal/PhenoTipsPatientConsentManager.java:156-163 | For each id the set holds the consent of the first configuration with that id that builds, and the consents follow the order of those configurations. |
| Consents.SystemConsentCache.constructor | components/consents/api/src/main/java/org/phenotips/consents/internal/PhenoTipsPatientConsentManager.java:129-131 | The cache starts empty, with no load time. |
| Consents.SystemConsentCache.UpdateSystemConsentCache | components/consents/api/src/main/java/org/phenotips/consents/internal/PhenoTipsPatientConsentManager.java:153-172 | The cache is rebuilt from the page's consent objects and the page's date becomes the load time. |
| Consents.SystemConsentCache.GetSystemConsents | components/consents/api/src/main/java/org/phenotips/consents/internal/PhenoTipsPatientConsentManager.java:139-151 | The cache is rebuilt exactly when the page is readable and nothing was loaded yet or the page is strictly newer; otherwise it stays as it was. The cached set is returned. |
| Consents.IsValidConsentId | components/consents/api/src/main/java/org/phenotips/consents/internal/PhenoTipsPatientConsentManager.java:245-254 | An id is valid exactly when some system consent has it. |
| Consents.AllConsentsFor | components/consents/api/src/main/java/org/phenotips/consents/internal/PhenoTipsPatientConsentManager.java:289-304 | The "all" result lists every system consent once, in order, with status YES exactly when its id is granted. |
| Consents.MissingConsentsAreUngranted | components/consents/api/src/main/java/org/phenotips/consents/internal/PhenoTipsPatientConsentManager.java:291-304 | Every "missing" consent has status NO, a configured id and an id that is not granted. |
| Consents.MissingIsAllUngranted | components/consents/api/src/main/java/org/phenotips/consents/internal/PhenoTipsPatientConsentManager.java:291-304 | The "missing" result is the "all" result with the YES consents left out. With AllConsentsFor, it holds each ungranted system consent once, in system order, with its fields kept and status NO. |
| Consents.MissingConsentsHaveId | components/consents/api/src/main/java/org/phenotips/consents/internal/PhenoTipsPatientConsentManager.java:291-304 | An id is among the missing consents exactly when it is configured and not granted. |
| Consents.GetConsentsForPatient | components/consents/api/src/main/java/org/phenotips/consents/internal/PhenoTipsPatientConsentManager.java:280-307 | A null patient gives null; otherwise the consents are built in one pass over the system consents. |
| Consents.HasConsentIff | components/consents/api/src/main/java/org/phenotips/consents/internal/PhenoTipsPatientConsentManager.java:350-365 | hasConsent holds exactly when the patient is non-null, the id is configured, and the patient granted it. |
| Consents.FirstWithId | components/consents/api/src/main/java/org/phenotips/consents/internal/PhenoTipsPatientConsentManager.java:373-379 | The inner search finds a consent with the id exactly when one exists. |
| Consents.FirstWithIdAt | components/consents/api/src/main/java/org/phenotips/consents/internal/PhenoTipsPatientConsentManager.java:373-379 | It finds the first such consent. |
| Consents.ConvertToIds | components/consents/api/src/main/java/org/phenotips/consents/internal/PhenoTipsPatientConsentManager.java:445-452 | The ids of the consents, in order. |
| Consents.SelectFromKeepsConfiguredIds | components/consents/api/src/main/java/org/phenotips/consents/internal/PhenoTipsPatientConsentManager.java:332-334 | setPatientConsents stores the requested ids that are configured, in request order. |
| Consents.ConfiguredIdsSpec | components/consents/api/src/main/java/org/phenotips/consents/internal/PhenoTipsPatientConsentManager.java:370-382 | Every stored id is configured and requested, and every configured requested id is stored. |
| Consents.SelectFromSystem | components/consents/api/src/main/java/org/phenotips/consents/internal/PhenoTipsPatientConsentManager.java:370-382 | The loop selects, for each requested id, the first system consent with that id. |
| Consents.GrantSpec | components/consents/api/src/main/java/org/phenotips/consents/internal/PhenoTipsPatientConsentManager.java:409-412 | Grant adds the id and keeps the others. It creates no duplicate, granting twice equals granting once, and granting a present id changes nothing. |
| Consents.RevokeAbsent | components/consents/api/src/main/java/org/phenotips/consents/internal/PhenoTipsPatientConsentManager.java:414 | Revoking an id that is not granted changes nothing. |
| Consents.RevokeFirst | components/consents/api/src/main/java/org/phenotips/consents/internal/PhenoTipsPatientConsentManager.java:414 | Revoke removes the first occurrence and keeps the other ids in order. |
| Consents.RevokeWithoutDuplicates | components/consents/api/src/main/java/org/phenotips/consents/internal/PhenoTipsPatientConsentManager.java:414 | In a list without duplicates, revoking removes the id entirely, creates no duplicate, and keeps every other id. |
| Consents.WithoutFirstSubset | components/consents/api/src/main/java/org/phenotips/consents/internal/PhenoTipsPatientConsentManager.java:414 | Revoke only removes ids. |
| Consents.RevokeUndoesGrant | components/consents/api/src/main/java/org/phenotips/consents/internal/PhenoTipsPatientConsentManager.java:409-414 | Revoking right after granting an absent id restores the list. |
| Consents.PatientConsentHolder.constructor | components/consents/api/src/main/java/org/phenotips/consents/internal/PhenoTipsPatientConsentManager.java:471-476 | The holder starts with the given granted ids. |
| Consents.ManageConsent | components/consents/api/src/main/java/org/phenotips/consents/internal/PhenoTipsPatientConsentManager.java:400-424 | An unknown id returns false and changes nothing. A null patient ends in the error handler's own NullPointerException. Otherwise the list is granted or revoked and the result is the save's success. |
| Consents.SetPatientConsents | components/consents/api/src/main/java/org/phenotips/consents/internal/PhenoTipsPatientConsentManager.java:329-341 | A null patient gives false. Otherwise the holder gets the configured requested ids in request order, and the result is the save's success. |
| Consents.FromJson | components/consents/api/src/main/java/org/phenotips/consents/internal/PhenoTipsPatientConsentManager.java:510-523 | A null array gives null, and any array gives a set. |
| Consents.ConsentsFromJsonSpec | components/consents/api/src/main/java/org/phenotips/consents/internal/PhenoTipsPatientConsentManager.java:515-521 | The consents read have distinct ids, and each is decoded from an object of the array. Every object of the array has its id among them. |
| Measurements.GetHandler | components/patient-measurements/api/src/main/java/org/phenotips/measurements/internal/controller/MeasurementsController.java:173-182 | The handler found has the name; none is found exactly when no handler has it. |
| Measurements.GetHandlerIsFirst | components/patient-measurements/api/src/main/java/org/phenotips/measurements/internal/controller/MeasurementsController.java:173-182 | When several handlers share the name, the earliest is returned. |
| Measurements.LoadedEntrySpec | components/patient-measurements/api/src/main/java/org/phenotips/measurements/internal/controller/MeasurementsController.java:122-148 | An object is kept exactly when it is non-null, has a date or an age, has a non-empty type, and some handler has that type. The entry copies its fields and takes the handler's unit. |
| Measurements.Load | components/patient-measurements/api/src/main/java/org/phenotips/measurements/internal/controller/MeasurementsController.java:110-156 | load gives null exactly when there is no object list or it is empty. |
| Measurements.LoadSpec | components/patient-measurements/api/src/main/java/org/phenotips/measurements/internal/controller/MeasurementsController.java:122-148 | Every loaded entry is loadable and comes from an object, and every object that passes the rules contributes its entry. |
| Measurements.LoadMeasurements | components/patient-measurements/api/src/main/java/org/phenotips/measurements/internal/controller/MeasurementsController.java:119-150 | The load loop computes load. |
| Measurements.PatientDocument.constructor | components/patient-measurements/api/src/main/java/org/phenotips/measurements/internal/controller/MeasurementsController.java:195 | The document starts with the given measurement objects. |
| Measurements.PatientDocument.Save | components/patient-measurements/api/src/main/java/org/phenotips/measurements/internal/controller/MeasurementsController.java:185-209 | Null or non-indexed data leaves the objects unchanged. Otherwise they are replaced by one object per entry, in order. |
| Measurements.LoadAfterSave | components/patient-measurements/api/src/main/java/org/phenotips/measurements/internal/controller/MeasurementsController.java:195-205 | Loading what save wrote gives the entries back, when there is at least one and each is loadable. |
| Measurements.EntryToJson | components/patient-measurements/api/src/main/java/org/phenotips/measurements/internal/controller/MeasurementsController.java:279-295 | entryToJson fails exactly when the value is a non-finite number. |
| Measurements.EntryKeysDistinct | components/patient-measurements/api/src/main/java/org/phenotips/measurements/internal/controller/MeasurementsController.java:279-295 | The six keys entryToJson writes are different strings. |
| Measurements.EntryToJsonKeys | components/patient-measurements/api/src/main/java/org/phenotips/measurements/internal/controller/MeasurementsController.java:279-295 | entryToJson writes only those six keys. |
| Measurements.EntryToJsonDate | components/patient-measurements/api/src/main/java/org/phenotips/measurements/internal/controller/MeasurementsController.java:282-286 | The formatted date is written exactly when there is a date. |
| Measurements.EntryToJsonAgeAndType | components/patient-measurements/api/src/main/java/org/phenotips/measurements/internal/controller/MeasurementsController.java:287-288 | Age and type are written exactly when they are not null, with their values. |
| Measurements.EntryToJsonTail | components/patient-measurements/api/src/main/java/org/phenotips/measurements/internal/controller/MeasurementsController.java:289-293 | The side is written exactly when it is not blank; value and unit are written exactly when not null. |
| Measurements.ComputeDependantInfo | components/patient-measurements/api/src/main/java/org/phenotips/measurements/internal/controller/MeasurementsController.java:245-277 | The result is empty when age or type is blank, the value is null, the type is arm span, or the sex is not M or F. Otherwise it fails exactly when no handler has the type. When a handler exists, the result has exactly the keys sd and percentile. sd is "" exactly when the handler's standard deviation is infinite or NaN, and is that number otherwise. percentile is null exactly when the handler gives none, and is the handler's percentile otherwise. |
| Measurements.EntriesToJsonSpec | components/patient-measurements/api/src/main/java/org/phenotips/measurements/internal/controller/MeasurementsController.java:229-237 | The entry array fails exactly when some entry fails. Otherwise it has one object per entry, in order. |
| Measurements.EntriesToJsonFailed | components/patient-measurements/api/src/main/java/org/phenotips/measurements/internal/controller/MeasurementsController.java:229-237 | Once an entry fails, the whole array fails with that failure. |
| Measurements.WriteJsonSpec | components/patient-measurements/api/src/main/java/org/phenotips/measurements/internal/controller/MeasurementsController.java:218-243 | writeJSON leaves the object unchanged when the field is not selected, there is no data, or there are no entries. Otherwise it fails exactly when some entry's JSON or dependant information fails. On success it adds the "measurements" key and leaves every other key alone. The new value is an array with one object per entry, in order, each that entry's JSON with its dependant information. |
| Measurements.WriteMeasurementsJson | components/patient-measurements/api/src/main/java/org/phenotips/measurements/internal/controller/MeasurementsController.java:218-243 | The writeJSON loop computes writeJSON, stopping at the first failing entry. |
| Measurements.JsonToEntry | components/patient-measurements/api/src/main/java/org/phenotips/measurements/internal/controller/MeasurementsController.java:333-345 | An entry is read only from an object with a date that parses, a type and a non-NaN value; age, side and unit default to "". |
| Measurements.IsDuplicate | components/patient-measurements/api/src/main/java/org/phenotips/measurements/internal/controller/MeasurementsController.java:347-358 | An entry is a duplicate exactly when some kept entry has the same date, type and side. |
| Measurements.DedupDistinct | components/patient-measurements/api/src/main/java/org/phenotips/measurements/internal/controller/MeasurementsController.java:311-321 | No two kept entries share date, type and side. |
| Measurements.DedupComplete | components/patient-measurements/api/src/main/java/org/phenotips/measurements/internal/controller/MeasurementsController.java:311-321 | Every read entry's date, type and side are those of some kept entry. |
| Measurements.DedupFirst | components/patient-measurements/api/src/main/java/org/phenotips/measurements/internal/controller/MeasurementsController.java:311-321 | Each kept entry is the first read entry with its date, type and side. |
| Measurements.DedupPrefix | components/patient-measurements/api/src/main/java/org/phenotips/measurements/internal/controller/MeasurementsController.java:311-321 | Reading more entries only appends to the kept list, so kept entries are in input order. |
| Measurements.ReadJson | components/patient-measurements/api/src/main/java/org/phenotips/measurements/internal/controller/MeasurementsController.java:298-331 | readJSON never gives an empty list. |
| Measurements.KeptEntriesAreComplete | components/patient-measurements/api/src/main/java/org/phenotips/measurements/internal/controller/MeasurementsController.java:311-321 | Every kept entry has a date, a type and a non-NaN value. |
| Measurements.ReadJsonSpec | components/patient-measurements/api/src/main/java/org/phenotips/measurements/internal/controller/MeasurementsController.java:298-331 | readJSON gives null when there is no "measurements" array. Otherwise its entries are complete and no two share date, type and side. |
| Measurements.ReadJsonNullIff | components/patient-measurements/api/src/main/java/org/phenotips/measurements/internal/controller/MeasurementsController.java:305-325 | Given an array, readJSON gives null exactly when no element is read as an entry, the empty array included. |
| Measurements.ReadMeasurementsJson | components/patient-measurements/api/src/main/java/org/phenotips/measurements/internal/controller/MeasurementsController.java:298-331 | The readJSON loop computes readJSON. |
| Translations.ResourceName | components/base-war/src/main/java/org/xwiki/localization/jar/internal/RootClassLoaderTranslationBundle.java:104-108 | The name is "ApplicationResources.properties" for the root locale and "ApplicationResources_<locale>.properties" otherwise. |
| Translations.ResourceNameInjective | components/base-war/src/main/java/org/xwiki/localization/jar/internal/RootClassLoaderTranslationBundle.java:104-108 | Different locales use different resource names. |
| Translations.MergedFirstWins | components/base-war/src/main/java/org/xwiki/localization/jar/internal/RootClassLoaderTranslationBundle.java:125-137 | A key is present exactly when some readable resource defines it. Its value comes from the earliest such resource, and unreadable resources are skipped. |
| Translations.ResourceProperties | components/base-war/src/main/java/org/xwiki/localization/jar/internal/RootClassLoaderTranslationBundle.java:110-121 | The properties are null exactly when listing fails or finds no resource. |
| Translations.GetResourceProperties | components/base-war/src/main/java/org/xwiki/localization/jar/internal/RootClassLoaderTranslationBundle.java:102-140 | Building the name, listing and the reverse loading loop compute those properties. |
| Translations.StringEntriesAmongAdd | components/base-war/src/main/java/org/xwiki/localization/jar/internal/RootClassLoaderTranslationBundle.java:83-93 | Visiting one more key adds its entry exactly when its value is a string. |
| Translations.StringEntries | components/base-war/src/main/java/org/xwiki/localization/jar/internal/RootClassLoaderTranslationBundle.java:83-93 | The bundle's entries are exactly the string-keyed entries with string values, with those values. |
| Translations.LocalizedTranslationBundle.constructor | components/base-war/src/main/java/org/xwiki/localization/jar/internal/RootClassLoaderTranslationBundle.java:81 | A new bundle has the locale and no translation. |
| Translations.LocalizedTranslationBundle.AddTranslation | components/base-war/src/main/java/org/xwiki/localization/jar/internal/RootClassLoaderTranslationBundle.java:90-91 | Adding a translation sets that key's message. |
| Translations.CreateBundle | components/base-war/src/main/java/org/xwiki/localization/jar/internal/RootClassLoaderTranslationBundle.java:72-96 | The EMPTY bundle (null) is returned exactly when there are no properties. Otherwise a new bundle for the locale holds exactly the string-to-string entries. |

## Left out

- XWiki document access, object creation and `saveDocument` are left out. The configuration page, the patient's granted ids and the success of a save are parameters.
- The XWQL query and UI-extension lookup of `fetchConsentFields` are left out. The result of the lookup is a parameter of each consent configuration (`dataFieldsLookup`, None when the query fails).
- Rendering of labels and descriptions, and translation of the "empty label" text, are left out. Their results are parameters.
- The `synchronized` update of the consent cache is modelled as a sequential step.
- DefaultConsent is not part of this model. A consent is a record identified by its id, and its JSON constructor is the parameter `decode`. `toJSON` is not modelled, because it only calls DefaultConsent's own `toJSON`.
- The overloads taking a patient id (`getMissingConsentsForPatient(String)`, `getAllConsentsForPatient(String)`, `hasConsent(String, String)`) only look the patient up in the repository, and are not modelled separately.
- A failure to read the patient's consent ids (which the source logs, returning no ids) is the same as a patient with no granted ids.
- Consents.GetConsentsForPatient: the query operations take the result of getSystemConsents as a parameter instead of refreshing the cache themselves.
- SimpleDateFormat, org.json's string and number conversions, and the handlers' standard deviation and percentile computations are parameters (`Library`). `MeasurementUtils.convertAgeStrToNumMonths` is not part of this model, and its failures are not modelled.
- Measurements.Load: exceptions from reading the document itself (the outer catch of load) are not modelled; the objects are a parameter.
- Measurements.PatientDocument.Save: the document's other objects and the failure of object creation part-way are not modelled.
- Measurements.LoadAfterSave: an age, side or value that save leaves unset is read back as null. XWiki's getters give "" or 0 for an unset field instead, so for such entries the loaded entry is not modelled.
- Translations.GetResourceProperties: a resource that fails while being read is modelled as adding nothing. `Properties.load` may already have stored the entries read before the failure.
- Translations.GetResourceProperties: a malformed `\uXXXX` escape makes `Properties.load` throw IllegalArgumentException, which the loop does not catch (it catches only IOException). The model has no text format, so this failure is not modelled.
- The `.properties` text format and the translation message parser are left out. A translation keeps its raw message.
- Translations.CreateBundle: the EMPTY bundle is modelled as null. Entries whose key is not a String are never visited, since they could not pass the `instanceof` test.
- A java.util.Locale is modelled by its `toString` text.
- The DOM, AJAX requests, notifications, event wiring and Prototype template evaluation of extraGeneVariantData.js are left out. A table is a sequence of gene rows, each with its variant rows, and evaluated templates are parameters.
- The edit-done label rendering of extraGeneVariantData.js reads live form controls and is not modelled.
- GeneEditor.Editor.DeleteGene: genes are addressed by position. The script finds a gene's rows with CSS selectors on its index text, so the model assumes distinct index texts. Once the counter becomes NaN every new gene is "NaN", and the selectors then mix genes; that is not modelled.
- GeneEditor.Editor.DeleteVariant: variants are found by their gene's position, under the same distinct-index assumption as DeleteGene.
- GeneEditor.Editor.AddVariant: the new row goes to the gene at the position, under the same distinct-index assumption as DeleteGene.
- getAllGraphics, getShapes, remove, onSetID and setAnonymizedStatus of abstractNodeVisuals.js are left out. They work on vector-graphics sets, and `Helpers.cloneObject` is not part of this model.
- Coordinates are modelled as reals, not as floating-point numbers.
- GeneVariantText.NatToString: numbers are unbounded integers, not IEEE doubles. JavaScript's exponent form for 10^21 and above (such as "1e+21") is not modelled.
- GeneVariantText.ParseInt: the parsed value is exact. The rounding that parseInt does for runs of more than about 15 digits (above 2^53) is not modelled.
- GeneEditor.Succ: `geneIndex++` and `variantIndex++` are exact. The loss of precision above 2^53, where adding one can leave the number unchanged, is not modelled.
