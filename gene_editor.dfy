/** The gene/variant table editor of extraGeneVariantData.js without its DOM: the
    shared index counters of a group of tables, the gene and variant rows of one
    table, the renumbering after deletes, the header count, and the start-up
    computation of the counters. */
module GeneEditor {
  import opened Common
  import opened GeneVariantText

  // ---------------------------------------------------------------------------
  // The shared counters

  predicate StrictlyIncreasing(s: seq<int>) {
    forall i, j :: 0 <= i < j < |s| ==> s[i] < s[j]
  }

  /** Indices handed out in increasing order are all different. */
  lemma IncreasingHasNoDuplicates(s: seq<int>)
    requires StrictlyIncreasing(s)
    ensures NoDuplicates(s)
  {
  }

  /** JavaScript's `x + 1` and `x++` on a number that may be NaN (`None`). */
  function Succ(x: Option<int>): (r: Option<int>)
    ensures r.None? <==> x.None?
    ensures r.Some? ==> r.value == x.value + 1
  {
    match x
    case None => None
    case Some(n) => Some(n + 1)
  }

  /** The `{geneIndex, variantIndex}` object shared by the editors of one group of
      tables. `None` stands for NaN, which start-up can produce and `++` keeps. */
  class GroupOptions {
    var geneIndex: Option<int>
    var variantIndex: Option<int>
    /** The numeric indices handed out so far, oldest first. */
    ghost var issuedGenes: seq<int>
    ghost var issuedVariants: seq<int>

    ghost predicate Valid()
      reads this
    {
      && StrictlyIncreasing(issuedGenes)
      && (geneIndex.None? ==> issuedGenes == [])
      && (geneIndex.Some? ==> forall i :: 0 <= i < |issuedGenes| ==> issuedGenes[i] < geneIndex.value)
      && StrictlyIncreasing(issuedVariants)
      && (variantIndex.None? ==> issuedVariants == [])
      && (variantIndex.Some? ==> forall i :: 0 <= i < |issuedVariants| ==> issuedVariants[i] < variantIndex.value)
    }

    constructor(geneIndex: Option<int>, variantIndex: Option<int>)
      ensures Valid()
      ensures this.geneIndex == geneIndex && this.variantIndex == variantIndex
      ensures issuedGenes == [] && issuedVariants == []
    {
      this.geneIndex := geneIndex;
      this.variantIndex := variantIndex;
      issuedGenes := [];
      issuedVariants := [];
    }

    /** `this.options.geneIndex++`: hands out the current value and advances the counter. */
    method NextGeneIndex() returns (index: Option<int>)
      requires Valid()
      modifies this
      ensures Valid()
      ensures index == old(geneIndex) && geneIndex == Succ(old(geneIndex))
      ensures issuedGenes == old(issuedGenes) + (if index.Some? then [index.value] else [])
      ensures variantIndex == old(variantIndex) && issuedVariants == old(issuedVariants)
      ensures index.Some? ==> forall i :: 0 <= i < |old(issuedGenes)| ==> old(issuedGenes)[i] < index.value
    {
      index := geneIndex;
      geneIndex := Succ(geneIndex);
      if index.Some? {
        issuedGenes := issuedGenes + [index.value];
      }
    }

    /** `this.options.variantIndex++`. */
    method NextVariantIndex() returns (index: Option<int>)
      requires Valid()
      modifies this
      ensures Valid()
      ensures index == old(variantIndex) && variantIndex == Succ(old(variantIndex))
      ensures issuedVariants == old(issuedVariants) + (if index.Some? then [index.value] else [])
      ensures geneIndex == old(geneIndex) && issuedGenes == old(issuedGenes)
      ensures index.Some? ==> forall i :: 0 <= i < |old(issuedVariants)| ==> old(issuedVariants)[i] < index.value
    {
      index := variantIndex;
      variantIndex := Succ(variantIndex);
      if index.Some? {
        issuedVariants := issuedVariants + [index.value];
      }
    }
  }

  // ---------------------------------------------------------------------------
  // The rows of a table

  /** A variant row: its index (the suffix of its class names), its visible `g.k`
      label, and the markup of its row and of its more-info row. */
  datatype VariantRow = VariantRow(index: string, numberLabel: string, row: string, moreInfo: string)

  /** A gene row: its index, the text of its row-count cell, its markup, the header of
      its variant table (present while it has variants), and its variants in table order. */
  datatype GeneRow = GeneRow(index: string, count: string, row: string, header: Option<string>, variants: seq<VariantRow>)

  /** Every variant labelled `<geneCount>.<position>`, positions counted from 1. */
  predicate LabelledFor(vs: seq<VariantRow>, geneCount: string) {
    forall j :: 0 <= j < |vs| ==> vs[j].numberLabel == VariantLabel(geneCount, j + 1)
  }

  /** Genes numbered 1..n in table order, each gene's variants labelled after it. */
  predicate WellNumbered(gs: seq<GeneRow>) {
    forall k :: 0 <= k < |gs| ==> gs[k].count == NatToString(k + 1) && LabelledFor(gs[k].variants, gs[k].count)
  }

  /** A table has a variant header exactly for the genes that have variants. */
  predicate HeadersPresent(gs: seq<GeneRow>) {
    forall k :: 0 <= k < |gs| ==> (gs[k].variants == [] <==> gs[k].header.None?)
  }

  function Relabel(vs: seq<VariantRow>, geneCount: string): (r: seq<VariantRow>)
    ensures |r| == |vs| && LabelledFor(r, geneCount)
  {
    seq(|vs|, j requires 0 <= j < |vs| => vs[j].(numberLabel := VariantLabel(geneCount, j + 1)))
  }

  function RenumberGene(g: GeneRow, n: nat): GeneRow {
    g.(count := NatToString(n), variants := Relabel(g.variants, NatToString(n)))
  }

  /** The numbering the delete handler writes: the k-th remaining gene gets number k. */
  function Renumber(gs: seq<GeneRow>): seq<GeneRow> {
    seq(|gs|, k requires 0 <= k < |gs| => RenumberGene(gs[k], k + 1))
  }

  /** Two variant lists that differ at most in their labels. */
  predicate SameVariantsButLabels(a: seq<VariantRow>, b: seq<VariantRow>) {
    |a| == |b| && forall j :: 0 <= j < |a| ==> a[j].(numberLabel := b[j].numberLabel) == b[j]
  }

  /** Two tables that differ at most in their numbering. */
  predicate SameRowsButNumbering(a: seq<GeneRow>, b: seq<GeneRow>) {
    |a| == |b|
    && forall k :: 0 <= k < |a| ==>
         a[k].index == b[k].index && a[k].row == b[k].row && a[k].header == b[k].header
         && SameVariantsButLabels(a[k].variants, b[k].variants)
  }

  /** Renumbering numbers the table correctly and changes nothing but the numbering. */
  lemma RenumberIsNumbering(gs: seq<GeneRow>)
    ensures WellNumbered(Renumber(gs))
    ensures SameRowsButNumbering(gs, Renumber(gs))
  {
  }

  /** A correctly numbered table is left as it is by renumbering. */
  lemma RenumberWellNumbered(gs: seq<GeneRow>)
    requires WellNumbered(gs)
    ensures Renumber(gs) == gs
  {
    forall k | 0 <= k < |gs| ensures Renumber(gs)[k] == gs[k] {
      assert Relabel(gs[k].variants, gs[k].count) == gs[k].variants;
    }
  }

  /** In a correctly numbered table each variant label leads back to its gene's row-count
      text, and that text parses to the gene's position. */
  lemma WellNumberedReadsBack(gs: seq<GeneRow>, k: nat, j: nat)
    requires WellNumbered(gs) && k < |gs| && j < |gs[k].variants|
    ensures GeneCountOfLabel(gs[k].variants[j].numberLabel) == gs[k].count
    ensures ParseInt(gs[k].count) == Some(k + 1)
  {
    NatToStringHasNoDot(k + 1);
    GeneCountOfLabelRoundTrip(gs[k].count, j + 1);
    ParseIntOfNatToString(k + 1);
  }

  /** Changing only the numbering keeps a header exactly where there are variants. */
  lemma NumberingKeepsHeaders(a: seq<GeneRow>, b: seq<GeneRow>)
    requires SameRowsButNumbering(a, b) && HeadersPresent(a)
    ensures HeadersPresent(b)
  {
    forall k | 0 <= k < |b| ensures b[k].variants == [] <==> b[k].header.None? {
      assert |a[k].variants| == |b[k].variants|;
    }
  }

  /** Replacing one gene by a row with the same number and variants labelled after it
      keeps the table correctly numbered. */
  lemma UpdateKeepsNumbering(gs: seq<GeneRow>, g: nat, gene: GeneRow)
    requires WellNumbered(gs) && g < |gs|
    requires gene.count == gs[g].count && LabelledFor(gene.variants, gene.count)
    ensures WellNumbered(gs[g := gene])
  {
  }

  /** Replacing one gene by a row whose variants are empty exactly when its header is
      absent keeps headers exactly where there are variants. */
  lemma UpdateKeepsHeaders(gs: seq<GeneRow>, g: nat, gene: GeneRow)
    requires HeadersPresent(gs) && g < |gs|
    requires gene.variants == [] <==> gene.header.None?
    ensures HeadersPresent(gs[g := gene])
  {
  }

  /** The table after a gene row is removed (a position past the end removes nothing). */
  function RemoveGene(gs: seq<GeneRow>, pos: nat): (r: seq<GeneRow>)
    ensures pos < |gs| ==> |r| == |gs| - 1
    ensures pos >= |gs| ==> r == gs
  {
    if pos < |gs| then gs[..pos] + gs[pos + 1..] else gs
  }

  /** The text the delete handler leaves in a gene's variant header. */
  function HeaderWithCount(header: Option<string>, n: nat): Option<string> {
    match header
    case None => None
    case Some(h) => Some(ReplaceCount(h, NatToString(n)))
  }

  /** A gene after the delete handler removed its variant `v`. Deleting the only variant
      removes the variant header; otherwise the remaining variants are relabelled after
      the gene number read from the deleted variant's label, and the header count becomes
      the number of remaining variants. */
  function WithoutVariant(gene: GeneRow, v: nat): GeneRow
    requires v < |gene.variants|
  {
    if |gene.variants| == 1 then gene.(variants := [], header := None)
    else
      var rest := gene.variants[..v] + gene.variants[v + 1..];
      gene.(variants := Relabel(rest, GeneCountOfLabel(gene.variants[v].numberLabel)),
            header := HeaderWithCount(gene.header, |rest|))
  }

  /** Deleting a variant keeps the gene's number and its other variants in order, and
      keeps the header exactly while variants remain. */
  lemma WithoutVariantKeepsHeader(gene: GeneRow, v: nat)
    requires v < |gene.variants|
    requires gene.variants == [] <==> gene.header.None?
    ensures var r := WithoutVariant(gene, v);
            && r.count == gene.count && r.index == gene.index && r.row == gene.row
            && |r.variants| == |gene.variants| - 1
            && SameVariantsButLabels(gene.variants[..v] + gene.variants[v + 1..], r.variants)
            && (r.variants == [] <==> r.header.None?)
  {
  }

  /** In a correctly numbered gene, deleting a variant leaves the others labelled
      `<gene>.1` .. `<gene>.k`. */
  lemma WithoutVariantKeepsNumbering(gene: GeneRow, n: nat, v: nat)
    requires v < |gene.variants|
    requires gene.count == NatToString(n) && LabelledFor(gene.variants, gene.count)
    ensures WithoutVariant(gene, v).count == gene.count
    ensures LabelledFor(WithoutVariant(gene, v).variants, gene.count)
  {
    NatToStringHasNoDot(n);
    GeneCountOfLabelRoundTrip(gene.count, v + 1);
  }

  /** Deleting one of several variants writes the new number of variants into the
      parenthesised count of the header and keeps the rest of its text. */
  lemma WithoutVariantHeaderCount(gene: GeneRow, v: nat, p: string, previous: string, q: string)
    requires v < |gene.variants| && |gene.variants| > 1
    requires gene.header == Some(p + "(" + previous + ")" + q)
    requires '(' !in p && '(' !in q
    requires previous != [] && ')' !in previous && forall c :: c in previous ==> !IsLineTerminator(c)
    ensures WithoutVariant(gene, v).header == Some(p + "(" + NatToString(|gene.variants| - 1) + ")" + q)
  {
    HeaderCountUpdated(p, previous, q, NatToString(|gene.variants| - 1));
  }

  /** A gene after the add handler appended a variant: the variant gets the index text of
      the counter, the label `<parsed gene number>.<new count>`, and its rows with the
      placeholders rewritten. The first variant brings the header (`firstHeader`,
      evaluated with count 1); a later one sets the header count to the new number of
      variants. */
  function WithNewVariant(gene: GeneRow, variantIndex: Option<int>, firstHeader: string,
                          rowTemplate: string, moreInfoTemplate: string, variantClassName: string): GeneRow
  {
    var varCount := |gene.variants| + 1;
    var indexText := NumberText(variantIndex);
    var template := VariantTemplate(variantClassName);
    var variant := VariantRow(indexText, NumberText(ParseInt(gene.count)) + "." + NatToString(varCount),
                              Rewrite(rowTemplate, indexText, template),
                              Rewrite(moreInfoTemplate, indexText, template));
    gene.(header := if gene.variants == [] then Some(firstHeader) else HeaderWithCount(gene.header, varCount),
          variants := gene.variants + [variant])
  }

  /** In a correctly numbered gene the new variant is labelled `<gene>.<k+1>` after its k
      predecessors, whose labels stay as they are. */
  lemma WithNewVariantKeepsNumbering(gene: GeneRow, n: nat, variantIndex: Option<int>, firstHeader: string,
                                     rowTemplate: string, moreInfoTemplate: string, variantClassName: string)
    requires gene.count == NatToString(n) && LabelledFor(gene.variants, gene.count)
    ensures var r := WithNewVariant(gene, variantIndex, firstHeader, rowTemplate, moreInfoTemplate, variantClassName);
            && r.count == gene.count && r.variants[..|gene.variants|] == gene.variants
            && LabelledFor(r.variants, gene.count)
  {
    ParseIntOfNatToString(n);
    var r := WithNewVariant(gene, variantIndex, firstHeader, rowTemplate, moreInfoTemplate, variantClassName);
    assert r.variants[|gene.variants|].numberLabel == VariantLabel(gene.count, |gene.variants| + 1);
  }

  /** A later variant writes the new number of variants into the parenthesised count of
      the header and keeps the rest of its text. */
  lemma WithNewVariantHeaderCount(gene: GeneRow, variantIndex: Option<int>, firstHeader: string,
                                  rowTemplate: string, moreInfoTemplate: string, variantClassName: string,
                                  p: string, previous: string, q: string)
    requires gene.variants != [] && gene.header == Some(p + "(" + previous + ")" + q)
    requires '(' !in p && '(' !in q
    requires previous != [] && ')' !in previous && forall c :: c in previous ==> !IsLineTerminator(c)
    ensures WithNewVariant(gene, variantIndex, firstHeader, rowTemplate, moreInfoTemplate, variantClassName).header
            == Some(p + "(" + NatToString(|gene.variants| + 1) + ")" + q)
  {
    HeaderCountUpdated(p, previous, q, NatToString(|gene.variants| + 1));
  }

  // ---------------------------------------------------------------------------
  // One table's editor

  /** The class name given by the table id, or the default when it is missing or empty. */
  function ClassNameOrDefault(name: Option<string>, default: string): (r: string)
    ensures name.Some? && name.value != [] ==> r == name.value
    ensures (name.None? || name.value == []) ==> r == default
  {
    if name.Some? && name.value != [] then name.value else default
  }

  const DefaultGeneClassName: string := "PhenoTips.GeneClass"
  const DefaultGeneVariantClassName: string := "PhenoTips.GeneVariantClass"

  class Editor {
    const options: GroupOptions
    const geneClassName: string
    const geneVariantClassName: string
    var genes: seq<GeneRow>
    /** The variant indices whose more-info area already has an outside-click listener. */
    var areaEditListeners: seq<string>

    ghost predicate Valid()
      reads this, options
    {
      options.Valid() && HeadersPresent(genes) && NoDuplicates(areaEditListeners)
    }

    constructor(options: GroupOptions, geneClassName: Option<string>, geneVariantClassName: Option<string>,
                genes: seq<GeneRow>)
      requires options.Valid() && HeadersPresent(genes)
      ensures Valid()
      ensures this.options == options && this.genes == genes && areaEditListeners == []
      ensures this.geneClassName == ClassNameOrDefault(geneClassName, DefaultGeneClassName)
      ensures this.geneVariantClassName == ClassNameOrDefault(geneVariantClassName, DefaultGeneVariantClassName)
    {
      this.options := options;
      this.geneClassName := ClassNameOrDefault(geneClassName, DefaultGeneClassName);
      this.geneVariantClassName := ClassNameOrDefault(geneVariantClassName, DefaultGeneVariantClassName);
      this.genes := genes;
      areaEditListeners := [];
    }

    /** Adds a gene row built from the evaluated gene-row template. The row gets the
        next gene index of the group and the number "existing rows + 1". */
    method AddGene(rowTemplate: string, triggerOfThisTable: bool, triggerDisabled: bool)
      requires Valid()
      modifies this, options
      ensures Valid()
      ensures !triggerOfThisTable || triggerDisabled ==>
                genes == old(genes) && unchanged(options)
      ensures triggerOfThisTable && !triggerDisabled ==>
                && options.geneIndex == Succ(old(options.geneIndex))
                && options.variantIndex == old(options.variantIndex)
                && genes == old(genes) + [GeneRow(NumberText(old(options.geneIndex)), NatToString(|old(genes)| + 1),
                                                  Rewrite(rowTemplate, NumberText(old(options.geneIndex)), GeneTemplate),
                                                  None, [])]
      ensures WellNumbered(old(genes)) ==> WellNumbered(genes)
      ensures areaEditListeners == old(areaEditListeners)
    {
      if !triggerOfThisTable || triggerDisabled {
        return;
      }
      var idx := |genes| + 1;
      var geneIndex := options.NextGeneIndex();
      var indexText := NumberText(geneIndex);
      var row := Rewrite(rowTemplate, indexText, GeneTemplate);
      genes := genes + [GeneRow(indexText, NatToString(idx), row, None, [])];
    }

    /** The success handler of a gene delete: removes the gene row at `pos` (when there
        is one) and renumbers the remaining genes and their variants. */
    method DeleteGene(pos: nat)
      requires Valid()
      modifies this
      ensures Valid()
      ensures genes == Renumber(RemoveGene(old(genes), pos))
      ensures WellNumbered(genes)
      ensures areaEditListeners == old(areaEditListeners)
    {
      var remaining := RemoveGene(genes, pos);
      assert HeadersPresent(remaining) by {
        forall k | 0 <= k < |remaining|
          ensures remaining[k].variants == [] <==> remaining[k].header.None?
        {
          if pos < |genes| && k >= pos { assert remaining[k] == genes[k + 1]; }
          else { assert remaining[k] == genes[k]; }
        }
      }
      var renumbered := RenumberGenes(remaining);
      RenumberIsNumbering(remaining);
      NumberingKeepsHeaders(remaining, renumbered);
      genes := renumbered;
    }

    /** The success handler of a variant delete, for variant `v` of gene `g`; a position
        without a variant changes nothing. */
    method DeleteVariant(g: nat, v: nat)
      requires Valid()
      modifies this
      ensures Valid()
      ensures g < |old(genes)| && v < |old(genes)[g].variants| ==>
                genes == old(genes)[g := WithoutVariant(old(genes)[g], v)]
      ensures g >= |old(genes)| || v >= |old(genes)[g].variants| ==> genes == old(genes)
      ensures WellNumbered(old(genes)) ==> WellNumbered(genes)
      ensures areaEditListeners == old(areaEditListeners)
    {
      if g >= |genes| || v >= |genes[g].variants| {
        return;
      }
      var gene := genes[g];
      var updated;
      if |gene.variants| == 1 {
        updated := gene.(variants := [], header := None);
      } else {
        var rest := gene.variants[..v] + gene.variants[v + 1..];
        var geneCount := GeneCountOfLabel(gene.variants[v].numberLabel);
        var relabelled := RelabelVariants(rest, geneCount);
        updated := gene.(variants := relabelled, header := HeaderWithCount(gene.header, |rest|));
      }
      assert updated == WithoutVariant(gene, v);
      WithoutVariantKeepsHeader(gene, v);
      UpdateKeepsHeaders(genes, g, updated);
      if WellNumbered(genes) {
        WithoutVariantKeepsNumbering(gene, g + 1, v);
        UpdateKeepsNumbering(genes, g, updated);
      }
      genes := genes[g := updated];
    }

    /** The renumbering loop of the gene delete handler: the i-th row-count cell gets
        `i` and the gene's variants `i + '.' + (y++)`. */
    static method RenumberGenes(gs: seq<GeneRow>) returns (renumbered: seq<GeneRow>)
      ensures renumbered == Renumber(gs)
    {
      renumbered := [];
      var i := 0;
      while i < |gs|
        invariant 0 <= i <= |gs|
        invariant |renumbered| == i
        invariant forall k :: 0 <= k < i ==> renumbered[k] == RenumberGene(gs[k], k + 1)
      {
        var gene := gs[i];
        var count := NatToString(i + 1);
        var relabelled := RelabelVariants(gene.variants, count);
        renumbered := renumbered + [gene.(count := count, variants := relabelled)];
        i := i + 1;
      }
    }

    /** The variant relabelling loop of the delete handlers: `count + '.' + (y++)`. */
    static method RelabelVariants(vs: seq<VariantRow>, geneCount: string) returns (r: seq<VariantRow>)
      ensures r == Relabel(vs, geneCount)
    {
      r := [];
      var y := 0;
      while y < |vs|
        invariant 0 <= y <= |vs|
        invariant |r| == y
        invariant forall j :: 0 <= j < y ==> r[j] == vs[j].(numberLabel := VariantLabel(geneCount, j + 1))
      {
        r := r + [vs[y].(numberLabel := VariantLabel(geneCount, y + 1))];
        y := y + 1;
      }
    }

    /** Adds a variant to gene `g` from the evaluated templates. The add link must carry a
        `classname=` parameter and must not be disabled; otherwise nothing changes. */
    method AddVariant(g: nat, href: string, triggerDisabled: bool, firstHeader: string,
                      rowTemplate: string, moreInfoTemplate: string)
      requires Valid() && g < |genes|
      modifies this, options
      ensures Valid()
      ensures triggerDisabled || ClassNameFromHref(href).None? ==>
                genes == old(genes) && unchanged(options)
      ensures !triggerDisabled && ClassNameFromHref(href).Some? ==>
                && options.variantIndex == Succ(old(options.variantIndex))
                && options.geneIndex == old(options.geneIndex)
                && genes == old(genes)[g := WithNewVariant(old(genes)[g], old(options.variantIndex), firstHeader,
                                                            rowTemplate, moreInfoTemplate, geneVariantClassName)]
      ensures WellNumbered(old(genes)) ==> WellNumbered(genes)
      ensures areaEditListeners == old(areaEditListeners)
    {
      if triggerDisabled {
        return;
      }
      var className := ClassNameFromHref(href);
      if className.None? {
        return;
      }
      var gene := genes[g];
      var varIndex := options.NextVariantIndex();
      var updated := WithNewVariant(gene, varIndex, firstHeader, rowTemplate, moreInfoTemplate, geneVariantClassName);
      UpdateKeepsHeaders(genes, g, updated);
      if WellNumbered(genes) {
        WithNewVariantKeepsNumbering(gene, g + 1, varIndex, firstHeader, rowTemplate, moreInfoTemplate, geneVariantClassName);
        UpdateKeepsNumbering(genes, g, updated);
      }
      genes := genes[g := updated];
    }

    /** Clicking a variant's more-info area registers one outside-click listener per
        variant index, read from the suffix of the edit-button row's class name. */
    method AreaEditData(editButtonRowClass: string)
      requires Valid()
      modifies this
      ensures Valid()
      ensures var index := SuffixAfterLastDash(editButtonRowClass);
              areaEditListeners == if index in old(areaEditListeners) then old(areaEditListeners)
                                   else old(areaEditListeners) + [index]
      ensures genes == old(genes)
    {
      var index := SuffixAfterLastDash(editButtonRowClass);
      if index !in areaEditListeners {
        areaEditListeners := areaEditListeners + [index];
      }
    }
  }

  // ---------------------------------------------------------------------------
  // Start-up: tables are grouped by their class attribute, and each group's counters
  // are computed from the rows the page was rendered with.

  /** What start-up reads from one table: its class attribute, its id, the class
      attribute of the cell after each row-count cell, and the class attribute of each
      variant edit-button row. */
  datatype TableInfo = TableInfo(className: string, id: string, rowCountNeighbours: seq<string>,
                                 editButtonRows: seq<string>)

  /** The groups in order of first appearance, each holding its tables in page order. */
  function Grouped(tables: seq<TableInfo>): (groups: seq<seq<TableInfo>>)
    decreases |tables|
  {
    if tables == [] then []
    else
      var groups := Grouped(tables[..|tables| - 1]);
      var t := tables[|tables| - 1];
      var k := GroupOf(groups, t.className);
      if k < |groups| then groups[k := groups[k] + [t]] else groups + [[t]]
  }

  /** The position of the group of a class name, or |groups| when there is none. */
  function GroupOf(groups: seq<seq<TableInfo>>, className: string): (k: nat)
    ensures k <= |groups|
    ensures k < |groups| ==> groups[k] != [] && groups[k][0].className == className
    ensures forall i :: 0 <= i < k ==> groups[i] == [] || groups[i][0].className != className
  {
    if groups == [] then 0
    else if groups[0] != [] && groups[0][0].className == className then 0
    else 1 + GroupOf(groups[1..], className)
  }

  /** Every group is non-empty, holds tables of one class attribute, and no two groups
      share a class attribute. */
  predicate Partitioned(groups: seq<seq<TableInfo>>) {
    && (forall k :: 0 <= k < |groups| ==> groups[k] != [])
    && (forall k, i :: 0 <= k < |groups| && 0 <= i < |groups[k]| ==> groups[k][i].className == groups[k][0].className)
    && (forall k, l :: 0 <= k < l < |groups| ==> groups[k][0].className != groups[l][0].className)
  }

  /** The grouping is a partition by class attribute, and every table is in it. */
  lemma {:induction false} GroupedIsPartition(tables: seq<TableInfo>)
    ensures Partitioned(Grouped(tables))
    ensures forall i :: 0 <= i < |tables| ==> exists k :: 0 <= k < |Grouped(tables)| && tables[i] in Grouped(tables)[k]
    decreases |tables|
  {
    if tables != [] {
      var init := tables[..|tables| - 1];
      GroupedIsPartition(init);
      var groups := Grouped(init);
      var t := tables[|tables| - 1];
      var k := GroupOf(groups, t.className);
      var result := Grouped(tables);
      assert result == if k < |groups| then groups[k := groups[k] + [t]] else groups + [[t]];
      forall i | 0 <= i < |tables|
        ensures exists k' :: 0 <= k' < |result| && tables[i] in result[k']
      {
        if i < |tables| - 1 {
          assert tables[i] == init[i];
          var k' :| 0 <= k' < |groups| && init[i] in groups[k'];
          assert tables[i] in result[k'];
        } else {
          assert t in result[if k < |groups| then k else |groups|];
        }
      }
    }
  }

  /** The grouping loop of the start-up handler. */
  method GroupTables(tables: seq<TableInfo>) returns (groups: seq<seq<TableInfo>>)
    ensures groups == Grouped(tables)
    ensures Partitioned(groups)
  {
    groups := [];
    var i := 0;
    while i < |tables|
      invariant 0 <= i <= |tables|
      invariant groups == Grouped(tables[..i])
    {
      var t := tables[i];
      var k := 0;
      while k < |groups| && !(groups[k] != [] && groups[k][0].className == t.className)
        invariant 0 <= k <= |groups|
        invariant forall j :: 0 <= j < k ==> groups[j] == [] || groups[j][0].className != t.className
      {
        k := k + 1;
      }
      GroupOfIs(groups, t.className, k);
      if k < |groups| {
        groups := groups[k := groups[k] + [t]];
      } else {
        groups := groups + [[t]];
      }
      assert tables[..i + 1][..i] == tables[..i];
      i := i + 1;
    }
    assert tables[..|tables|] == tables;
    GroupedIsPartition(tables);
  }

  lemma {:induction false} GroupOfIs(groups: seq<seq<TableInfo>>, className: string, k: nat)
    requires k <= |groups|
    requires k < |groups| ==> groups[k] != [] && groups[k][0].className == className
    requires forall j :: 0 <= j < k ==> groups[j] == [] || groups[j][0].className != className
    ensures GroupOf(groups, className) == k
    decreases k
  {
    if k > 0 {
      GroupOfIs(groups[1..], className, k - 1);
    }
  }

  /** Math.max on numbers that may be NaN: NaN wins. */
  function JsMax(a: Option<int>, b: Option<int>): (r: Option<int>)
    ensures r.None? <==> a.None? || b.None?
    ensures r.Some? ==> r.value >= a.value && r.value >= b.value && (r.value == a.value || r.value == b.value)
  {
    if a.None? || b.None? then None else Some(if a.value >= b.value then a.value else b.value)
  }

  /** What one table contributes to the gene counter: nothing when it has at most one
      row-count cell, otherwise the index of the gene before the last row-count cell
      (the last row is the template row) plus one, NaN when that index is not a number. */
  function TableGeneCandidate(t: TableInfo): Option<Option<int>> {
    var rows := t.rowCountNeighbours;
    if |rows| > 1 then Some(Succ(ParseInt(SuffixAfterLastDash(rows[|rows| - 2])))) else None
  }

  /** Math.max over the candidates that are present, starting from `start`. */
  function MaxCandidate(cs: seq<Option<Option<int>>>, start: Option<int>): Option<int>
    decreases |cs|
  {
    if cs == [] then start
    else
      var before := MaxCandidate(cs[..|cs| - 1], start);
      match cs[|cs| - 1]
      case None => before
      case Some(c) => JsMax(before, c)
  }

  function GeneCandidates(group: seq<TableInfo>): (cs: seq<Option<Option<int>>>)
    ensures |cs| == |group|
  {
    seq(|group|, i requires 0 <= i < |group| => TableGeneCandidate(group[i]))
  }

  /** The gene counter after the tables of a group are visited, starting from 0. */
  function GroupGeneIndex(group: seq<TableInfo>): Option<int> {
    MaxCandidate(GeneCandidates(group), Some(0))
  }

  lemma {:induction false} MaxCandidateBounds(cs: seq<Option<Option<int>>>, start: int)
    ensures MaxCandidate(cs, Some(start)).None? <==> exists i :: 0 <= i < |cs| && cs[i] == Some(None)
    ensures MaxCandidate(cs, Some(start)).Some? ==>
              && MaxCandidate(cs, Some(start)).value >= start
              && (forall i :: 0 <= i < |cs| && cs[i].Some? ==> MaxCandidate(cs, Some(start)).value >= cs[i].value.value)
              && (MaxCandidate(cs, Some(start)).value == start ||
                    exists i :: 0 <= i < |cs| && cs[i] == Some(MaxCandidate(cs, Some(start))))
    decreases |cs|
  {
    if cs != [] {
      var init := cs[..|cs| - 1];
      MaxCandidateBounds(init, start);
      assert forall i :: 0 <= i < |init| ==> cs[i] == init[i];
    }
  }

  /** The gene counter is NaN exactly when some table's candidate is NaN; otherwise it is
      at least 0 and at least every table's candidate, and it is 0 or one of them. */
  lemma GroupGeneIndexBounds(group: seq<TableInfo>)
    ensures GroupGeneIndex(group).None? <==>
              exists i :: 0 <= i < |group| && TableGeneCandidate(group[i]) == Some(None)
    ensures GroupGeneIndex(group).Some? ==>
              && GroupGeneIndex(group).value >= 0
              && (forall i :: 0 <= i < |group| && TableGeneCandidate(group[i]).Some? ==>
                    GroupGeneIndex(group).value >= TableGeneCandidate(group[i]).value.value)
              && (GroupGeneIndex(group).value == 0 ||
                    exists i :: 0 <= i < |group| && TableGeneCandidate(group[i]) == Some(GroupGeneIndex(group)))
  {
    var cs := GeneCandidates(group);
    MaxCandidateBounds(cs, 0);
    assert forall i :: 0 <= i < |group| ==> cs[i] == TableGeneCandidate(group[i]);
  }

  /** A variant index as start-up reads it: a non-number counts as -1. */
  function VariantIndexOf(editButtonRowClass: string): int {
    ParseInt(SuffixAfterLastDash(editButtonRowClass)).GetOr(-1)
  }

  /** Math.max over a sequence of numbers, starting from `start`. */
  function MaxFrom(xs: seq<int>, start: int): (r: int)
    ensures r >= start
    decreases |xs|
  {
    if xs == [] then start
    else
      var before := MaxFrom(xs[..|xs| - 1], start);
      if xs[|xs| - 1] > before then xs[|xs| - 1] else before
  }

  lemma {:induction false} MaxFromBounds(xs: seq<int>, start: int)
    ensures forall j :: 0 <= j < |xs| ==> xs[j] <= MaxFrom(xs, start)
    ensures MaxFrom(xs, start) == start || exists j :: 0 <= j < |xs| && xs[j] == MaxFrom(xs, start)
    decreases |xs|
  {
    if xs != [] {
      var init := xs[..|xs| - 1];
      MaxFromBounds(init, start);
      assert forall j :: 0 <= j < |init| ==> xs[j] == init[j];
    }
  }

  /** The variant indices a table's rows with an edit button show, in row order. */
  function TableVariantIndices(t: TableInfo): seq<int> {
    Map(VariantIndexOf, t.editButtonRows)
  }

  /** Math.max over lists of numbers, list after list, starting from `start`. */
  function MaxOfAll(lists: seq<seq<int>>, start: int): (r: int)
    ensures r >= start
    decreases |lists|
  {
    if lists == [] then start
    else MaxFrom(lists[|lists| - 1], MaxOfAll(lists[..|lists| - 1], start))
  }

  lemma {:induction false} MaxOfAllBounds(lists: seq<seq<int>>, start: int)
    ensures forall i, j :: 0 <= i < |lists| && 0 <= j < |lists[i]| ==> lists[i][j] <= MaxOfAll(lists, start)
    ensures MaxOfAll(lists, start) == start ||
              exists i, j :: 0 <= i < |lists| && 0 <= j < |lists[i]| && lists[i][j] == MaxOfAll(lists, start)
    decreases |lists|
  {
    if lists != [] {
      var init := lists[..|lists| - 1];
      var last := |lists| - 1;
      MaxOfAllBounds(init, start);
      var before := MaxOfAll(init, start);
      MaxFromBounds(lists[last], before);
      assert forall i :: 0 <= i < |init| ==> lists[i] == init[i];
      var r := MaxOfAll(lists, start);
      if r != start {
        if r == before {
          var i, j :| 0 <= i < |init| && 0 <= j < |init[i]| && init[i][j] == before;
          assert lists[i][j] == r;
        } else {
          var j :| 0 <= j < |lists[last]| && lists[last][j] == r;
          assert lists[last][j] == r;
        }
      }
    }
  }

  /** The variant counter before the final increment: the largest variant index of the
      group's tables, starting from -1. */
  function GroupMaxVariantIndex(group: seq<TableInfo>): int {
    MaxOfAll(Map(TableVariantIndices, group), -1)
  }

  /** Every variant index a row of the group shows is at most the counter before its
      final increment, and that counter is -1 or one of those indices. */
  lemma GroupVariantIndexBounds(group: seq<TableInfo>)
    ensures GroupMaxVariantIndex(group) >= -1
    ensures forall i, j :: 0 <= i < |group| && 0 <= j < |TableVariantIndices(group[i])| ==>
              TableVariantIndices(group[i])[j] <= GroupMaxVariantIndex(group)
    ensures GroupMaxVariantIndex(group) == -1 ||
              exists i, j :: 0 <= i < |group| && 0 <= j < |TableVariantIndices(group[i])| &&
                TableVariantIndices(group[i])[j] == GroupMaxVariantIndex(group)
  {
    MaxOfAllBounds(Map(TableVariantIndices, group), -1);
    MapAt(TableVariantIndices, group);
  }

  /** The counter loops of the start-up handler for one group: the gene counter starts
      at 0 and the variant counter at -1; after all of the group's editors are built the
      variant counter is incremented once. */
  method GroupCounters(group: seq<TableInfo>) returns (geneIndex: Option<int>, variantIndex: int)
    ensures geneIndex == GroupGeneIndex(group)
    ensures variantIndex == GroupMaxVariantIndex(group) + 1
  {
    ghost var cs := GeneCandidates(group);
    geneIndex := Some(0);
    variantIndex := -1;
    var i := 0;
    while i < |group|
      invariant 0 <= i <= |group|
      invariant geneIndex == MaxCandidate(cs[..i], Some(0))
      invariant variantIndex == MaxOfAll(Map(TableVariantIndices, group[..i]), -1)
    {
      var table := group[i];
      var candidate := TableGeneCandidate(table);
      if candidate.Some? {
        geneIndex := JsMax(geneIndex, candidate.value);
      }
      assert cs[..i + 1][..i] == cs[..i];
      variantIndex := TableMaxVariantIndex(table, variantIndex);
      assert group[..i + 1][..i] == group[..i];
      i := i + 1;
    }
    assert cs[..i] == cs;
    assert group[..i] == group;
    variantIndex := variantIndex + 1;
  }

  /** The inner loop over the rows of one table that carry an edit button: the variant
      counter becomes the largest of its value and the rows' variant indices. */
  method TableMaxVariantIndex(table: TableInfo, start: int) returns (variantIndex: int)
    ensures variantIndex == MaxFrom(TableVariantIndices(table), start)
  {
    var rows := table.editButtonRows;
    variantIndex := start;
    var j := 0;
    while j < |rows|
      invariant 0 <= j <= |rows|
      invariant variantIndex == MaxFrom(Map(VariantIndexOf, rows[..j]), start)
    {
      var indx := VariantIndexOf(rows[j]);
      variantIndex := if indx > variantIndex then indx else variantIndex;
      assert rows[..j + 1][..j] == rows[..j];
      j := j + 1;
    }
    assert rows[..j] == rows;
  }

  /** The shared counters of one group, as the start-up handler leaves them. */
  method InitGroupOptions(group: seq<TableInfo>) returns (options: GroupOptions)
    ensures fresh(options) && options.Valid()
    ensures options.geneIndex == GroupGeneIndex(group)
    ensures options.variantIndex == Some(GroupMaxVariantIndex(group) + 1)
    ensures options.issuedGenes == [] && options.issuedVariants == []
  {
    var geneIndex, variantIndex := GroupCounters(group);
    options := new GroupOptions(geneIndex, Some(variantIndex));
  }

  /** The class names an editor gets from its table id `...-<geneClass>_<variantClass>`;
      an empty id gives the defaults. */
  function EditorClassNames(id: string): (string, string) {
    if id == [] then (DefaultGeneClassName, DefaultGeneVariantClassName)
    else
      var (gene, variant) := ClassNamesFromTableId(id);
      (ClassNameOrDefault(Some(gene), DefaultGeneClassName), ClassNameOrDefault(Some(variant), DefaultGeneVariantClassName))
  }

  /** A table id built from two non-empty class names gives them back. */
  lemma EditorClassNamesFromId(prefix: string, geneClass: string, variantClass: string)
    requires geneClass != [] && variantClass != []
    requires '-' !in geneClass && '-' !in variantClass && '_' !in variantClass
    ensures EditorClassNames(prefix + "-" + geneClass + "_" + variantClass) == (geneClass, variantClass)
  {
    ClassNamesFromTableIdParts(prefix, geneClass, variantClass);
  }
}
