/** `SDTMDataProvider.get_data_sdtm`: one SDTM domain table built from the
    extraction metadata of the domain, the results of the validity and role
    queries, and the table the generic extractor returns.

    The metadata query, the two class queries and the generic extractor are not
    part of this model: their results are parameters (`meta`, `invalidRows`,
    `roleRows`) and the extractor is the function parameter `extract`. The
    optional-class marker is a constant of the extractor's library; here it is
    the parameter `marker`. */
module SdtmProvider {
  import opened Common
  import opened Sorting
  import opened SdtmFilters
  import opened SdtmColumns

  /** One record of the metadata query (`meta[0]`). */
  datatype Meta = Meta(
    rels: seq<Rel>,
    classes: seq<string>,
    reqClasses: seq<string>,
    renameDct: seq<(string, string)>,
    orderDct: OrderDict,
    sorting: SortSpec)

  /** `where_map`: class label to property filters. */
  type WhereMap = map<string, map<string, string>>

  /** The arguments of the extraction call that vary. */
  datatype Request = Request(labels: seq<string>, rels: seq<Rel>, where: WhereMap)

  /** What the method returns: the table, nothing when the metadata query found
      no record, or the exception raised for an unknown user role. */
  datatype Outcome = Ok(table: Table) | NoMeta | RoleNotFound(message: string)

  const RDFS_LABEL: string := "rdfs:label"

  /** `if study:` (None and the empty string are both falsy). */
  predicate StudyGiven(study: Option<string>)
  {
    study.Some? && study.value != ""
  }

  /** The `where_map` passed to extraction: an absent map counts as empty, and a
      study adds (or replaces) the filter on the Study class's label. */
  function StudyWhere(whereMap: Option<WhereMap>, study: Option<string>): (w: WhereMap)
    ensures StudyGiven(study) ==> STUDY in w && w[STUDY] == map[RDFS_LABEL := study.value]
    ensures forall c :: c != STUDY || !StudyGiven(study) ==>
              (c in w <==> whereMap.Some? && c in whereMap.value)
    ensures forall c :: c in w && (c != STUDY || !StudyGiven(study)) ==> w[c] == whereMap.value[c]
  {
    var base := if whereMap.Some? then whereMap.value else map[];
    if StudyGiven(study) then base[STUDY := map[RDFS_LABEL := study.value]] else base
  }

  // ---------------------------------------------------------------------------
  // Specification of the steps
  // ---------------------------------------------------------------------------

  /** What the class and relationship steps decide before extraction:
      `classes` after both partitions, the labels sent to the extractor, the
      pruned relationships and the two excluded lists. */
  datatype Plan = Plan(classes: seq<string>, labels: seq<string>, rels: seq<Rel>,
                       nonValid: seq<string>, noAccess: seq<string>)

  function PlanOf(m: Meta, checkRefactored: bool, userRole: Option<string>,
                  invalidRows: seq<Option<string>>, roleRows: seq<Option<string>>,
                  marker: string): (r: Result<Plan, string>)
    ensures r.Failure? <==> RoleGiven(userRole) && roleRows == []
    ensures r.Failure? ==> r.error == RoleMissing(userRole.value)
    ensures r.Success? ==> |r.value.labels| == |r.value.classes|
    ensures r.Success? && !checkRefactored ==> r.value.nonValid == []
    ensures r.Success? && !RoleGiven(userRole) ==> r.value.noAccess == []
  {
    var injected := InjectStudy(m.classes);
    var nonValid := if checkRefactored then Flagged(invalidRows, injected) else [];
    var valid := if checkRefactored then Without(injected, nonValid) else injected;
    if RoleGiven(userRole) && roleRows == [] then Failure(RoleMissing(userRole.value))
    else
      var (allowed, noAccess) := AccessSplit(valid, userRole, roleRows);
      assert !RoleGiven(userRole) ==> noAccess == [] by {
        if !RoleGiven(userRole) {
          UnrestrictedAccess(valid, userRole, roleRows);
        }
      }
      var excluded := noAccess + nonValid;
      Success(Plan(allowed, MarkOptional(allowed, m.reqClasses, marker),
                   if excluded != [] then CleanRels(m.rels, excluded) else m.rels,
                   nonValid, noAccess))
  }

  /** The extracted table after renaming, column ordering, padding, projection
      and (when some sort key survives) the row sort: its columns are the
      column order and it has as many rows as the extraction. */
  function Shape(raw: Table, m: Meta): (s: Table)
    ensures s.columns == ColOrder(m.orderDct) && |s.rows| == |raw.rows|
  {
    var renamed := RenameColumns(raw, FirstWins(m.renameDct));
    var order := ColOrder(m.orderDct);
    ProjectPadded(renamed, order);
    var projected := Project(Padded(renamed, order), order);
    var keys := KeepIn(SortKeys(m.sorting), projected.columns);
    if keys != [] then
      var sorted := SortRows(projected, keys);
      assert |sorted.rows| == |multiset(sorted.rows)| == |multiset(projected.rows)| == |projected.rows|;
      sorted
    else projected
  }

  /** The outcome `get_data_sdtm` specifies for these inputs: nothing exactly
      without metadata, the role error exactly when a role is given and the
      role query returns no row, and otherwise a table in the column order. */
  function Expected(meta: seq<Meta>, study: Option<string>, whereMap: Option<WhereMap>,
                    userRole: Option<string>, checkRefactored: bool,
                    invalidRows: seq<Option<string>>, roleRows: seq<Option<string>>,
                    marker: string, extract: Request -> Table): (r: Outcome)
    ensures r.NoMeta? <==> meta == []
    ensures r.RoleNotFound? <==> meta != [] && RoleGiven(userRole) && roleRows == []
    ensures r.RoleNotFound? ==> r.message == RoleMissing(userRole.value)
    ensures r.Ok? ==> r.table.columns == ColOrder(meta[0].orderDct)
  {
    if meta == [] then NoMeta
    else
      match PlanOf(meta[0], checkRefactored, userRole, invalidRows, roleRows, marker)
      case Failure(e) => RoleNotFound(e)
      case Success(p) =>
        Ok(Shape(extract(Request(p.labels, p.rels, StudyWhere(whereMap, study))), meta[0]))
  }

  // ---------------------------------------------------------------------------
  // The method
  // ---------------------------------------------------------------------------

  /** The first half of `get_data_sdtm`: the class list and the relationships
      are reassigned as each check runs. */
  method PrepareExtraction(m: Meta, checkRefactored: bool, userRole: Option<string>,
                           invalidRows: seq<Option<string>>, roleRows: seq<Option<string>>,
                           marker: string)
    returns (r: Result<Plan, string>)
    ensures r == PlanOf(m, checkRefactored, userRole, invalidRows, roleRows, marker)
  {
    var classes := InjectStudy(m.classes);
    var nonValid: seq<string> := [];
    var noAccess: seq<string> := [];
    if checkRefactored {
      classes, nonValid := ValidateClassesToExtract(classes, invalidRows);
    }
    if RoleGiven(userRole) {
      var access := ValidateAccess(classes, userRole, roleRows);
      if access.Failure? {
        return Failure(access.error);
      }
      classes, noAccess := access.value.0, access.value.1;
    } else {
      UnrestrictedAccess(classes, userRole, roleRows);
    }
    var plain := classes;
    if m.reqClasses != [] {
      classes := MarkOptional(classes, m.reqClasses, marker);
    }
    var rels := m.rels;
    var excluded := noAccess + nonValid;
    if excluded != [] {
      rels := FilterClassesFromRels(rels, excluded);
    }
    r := Success(Plan(plain, classes, rels, nonValid, noAccess));
  }

  /** The second half of `get_data_sdtm`: the extracted table is renamed,
      padded, projected and sorted. */
  method PostProcess(raw: Table, m: Meta) returns (df: Table)
    ensures df == Shape(raw, m)
  {
    var renameDct := BuildRenameDict(m.renameDct);
    df := RenameColumns(raw, renameDct);
    var order := ColOrder(m.orderDct);
    var renamed := df;
    df := PadColumns(df, order);
    ProjectPadded(renamed, order);
    df := Project(df, order);
    var sorting, sortingExcluded := SelectSortKeys(SortKeys(m.sorting), df.columns);
    if sorting != [] {
      df := SortRows(df, sorting);
    }
  }

  /** `get_data_sdtm` */
  method GetDataSdtm(meta: seq<Meta>, study: Option<string>, whereMap: Option<WhereMap>,
                     userRole: Option<string>, checkRefactored: bool,
                     invalidRows: seq<Option<string>>, roleRows: seq<Option<string>>,
                     marker: string, extract: Request -> Table)
    returns (r: Outcome)
    ensures r == Expected(meta, study, whereMap, userRole, checkRefactored, invalidRows, roleRows, marker, extract)
  {
    var where := StudyWhere(whereMap, study);
    if meta == [] {
      return NoMeta;
    }
    var plan := PrepareExtraction(meta[0], checkRefactored, userRole, invalidRows, roleRows, marker);
    if plan.Failure? {
      return RoleNotFound(plan.error);
    }
    var df := extract(Request(plan.value.labels, plan.value.rels, where));
    df := PostProcess(df, meta[0]);
    r := Ok(df);
  }

  // ---------------------------------------------------------------------------
  // Properties
  // ---------------------------------------------------------------------------

  /** The classes kept for extraction: they come from the metadata classes with
      Study injected, none of them was found invalid or restricted, and every
      injected class that was neither is kept. Study is kept unless one of the
      checks excluded it. The labels are those classes with the optional marker
      applied. */
  lemma PlanClasses(m: Meta, checkRefactored: bool, userRole: Option<string>,
                    invalidRows: seq<Option<string>>, roleRows: seq<Option<string>>, marker: string)
    requires PlanOf(m, checkRefactored, userRole, invalidRows, roleRows, marker).Success?
    ensures var p := PlanOf(m, checkRefactored, userRole, invalidRows, roleRows, marker).value;
            var injected := InjectStudy(m.classes);
            && (forall c :: c in p.classes ==> c in injected && c !in p.nonValid && c !in p.noAccess)
            && (forall c :: c in injected && c !in p.nonValid && c !in p.noAccess ==> c in p.classes)
            && (forall c :: c in p.nonValid ==> checkRefactored && c in injected && Some(c) in invalidRows)
            && (forall c :: c in p.noAccess ==> RoleGiven(userRole) && c in injected && Some(c) in roleRows)
            && (STUDY !in p.nonValid && STUDY !in p.noAccess ==> STUDY in p.classes)
            && Subsequence(p.classes, injected)
            && p.labels == MarkOptional(p.classes, m.reqClasses, marker)
  {
    var injected := InjectStudy(m.classes);
    var nonValid := if checkRefactored then Flagged(invalidRows, injected) else [];
    var valid := if checkRefactored then Without(injected, nonValid) else injected;
    SubsequenceOfSelf(injected);
    if checkRefactored {
      PartitionByFlags(injected, invalidRows);
    }
    var p := PlanOf(m, checkRefactored, userRole, invalidRows, roleRows, marker).value;
    if RoleGiven(userRole) {
      PartitionByFlags(valid, roleRows);
      SubsequenceTrans(p.classes, valid, injected);
    } else {
      UnrestrictedAccess(valid, userRole, roleRows);
    }
  }

  /** The relationships sent to extraction are the metadata's, in order, minus
      those that mention an invalid or restricted class. */
  lemma PlanRels(m: Meta, checkRefactored: bool, userRole: Option<string>,
                 invalidRows: seq<Option<string>>, roleRows: seq<Option<string>>, marker: string)
    requires PlanOf(m, checkRefactored, userRole, invalidRows, roleRows, marker).Success?
    ensures var p := PlanOf(m, checkRefactored, userRole, invalidRows, roleRows, marker).value;
            && Subsequence(p.rels, m.rels)
            && (forall r, c :: r in p.rels && (c in p.nonValid || c in p.noAccess) ==> !Mentions(r, c))
            && (forall r :: r in m.rels && !MentionsAny(r, p.noAccess + p.nonValid) ==> r in p.rels)
  {
    var p := PlanOf(m, checkRefactored, userRole, invalidRows, roleRows, marker).value;
    var excluded := p.noAccess + p.nonValid;
    CleanRelsSpec(m.rels, excluded);
    CleanRelsNoExclusion(m.rels);
  }

  /** The shaped table: its columns are exactly the computed column order; no
      row is added or lost; a column the renamed extraction lacks is null in
      every row; and when a sort key survives, the rows are a permutation of
      the projected rows in ascending key order, otherwise they are the
      projected rows unchanged. */
  lemma ShapeSpec(raw: Table, m: Meta)
    ensures var s := Shape(raw, m);
            var renamed := RenameColumns(raw, FirstWins(m.renameDct));
            var order := ColOrder(m.orderDct);
            var keys := KeepIn(SortKeys(m.sorting), order);
            && s.columns == order
            && |s.rows| == |raw.rows|
            && (forall i, j :: 0 <= i < |s.rows| && 0 <= j < |order| && order[j] !in renamed.columns ==>
                  s.rows[i][j] == None)
            && (keys == [] ==> s == Project(Padded(renamed, order), order))
            && (keys != [] ==>
                  && multiset(s.rows) == multiset(Project(Padded(renamed, order), order).rows)
                  && forall i, j :: 0 <= i < j < |s.rows| ==> RowLeq(KeyIndices(order, keys), s.rows[i], s.rows[j]))
  {
    var renamed := RenameColumns(raw, FirstWins(m.renameDct));
    var order := ColOrder(m.orderDct);
    ProjectPadded(renamed, order);
    var projected := Project(Padded(renamed, order), order);
    var s := Shape(raw, m);
    var keys := KeepIn(SortKeys(m.sorting), order);
    forall i, j | 0 <= i < |s.rows| && 0 <= j < |order| && order[j] !in renamed.columns
      ensures s.rows[i][j] == None
    {
      if keys != [] {
        assert s.rows[i] in multiset(projected.rows);
        var k :| 0 <= k < |projected.rows| && projected.rows[k] == s.rows[i];
      }
    }
  }
}
