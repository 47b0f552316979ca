/** The class-list and relationship filtering that `SDTMDataProvider` applies to
    the metadata of one domain before it asks the extractor for rows: the Study
    class injection, the validity partition (classes never materialised during
    reshaping), the role access partition, the optional-class marker and the
    pruning of relationships that touch an excluded class.

    The Cypher queries themselves run inside the graph store; their results come
    in as values. A query row's `label` may be null, so those results are lists
    of `Option<string>`. */
module SdtmFilters {
  import opened Common

  /** One element of the metadata's `rels` list: the map
      `{from, to, type, short_label}` collected by the metadata query. */
  datatype Rel = Rel(from: Option<string>, to: Option<string>, relType: Option<string>, shortLabel: Option<string>)

  /** `class_ in rels_dict.values()` */
  predicate Mentions(r: Rel, c: string)
  {
    r.from == Some(c) || r.to == Some(c) || r.relType == Some(c) || r.shortLabel == Some(c)
  }

  predicate MentionsAny(r: Rel, classes: seq<string>)
  {
    exists c :: c in classes && Mentions(r, c)
  }

  // ---------------------------------------------------------------------------
  // Study injection and optional marking
  // ---------------------------------------------------------------------------

  const STUDY: string := "Study"

  /** `(['Study'] if 'Study' not in classes else []) + classes` */
  function InjectStudy(classes: seq<string>): (r: seq<string>)
    ensures STUDY in r
    ensures |r| == |classes| + (if STUDY in classes then 0 else 1)
    ensures r[|r| - |classes|..] == classes
  {
    (if STUDY !in classes then [STUDY] else []) + classes
  }

  /** Injecting Study a second time changes nothing. */
  lemma InjectStudyIdempotent(classes: seq<string>)
    ensures InjectStudy(InjectStudy(classes)) == InjectStudy(classes)
  {
  }

  /** The optional marker is appended to the classes that are not required, and
      only when the required list is non-empty. */
  function MarkOptional(classes: seq<string>, required: seq<string>, marker: string): (r: seq<string>)
    ensures |r| == |classes|
    ensures forall i :: 0 <= i < |classes| ==>
              r[i] == if required != [] && classes[i] !in required then classes[i] + marker else classes[i]
  {
    if required == [] then classes
    else seq(|classes|, i requires 0 <= i < |classes| =>
               if classes[i] !in required then classes[i] + marker else classes[i])
  }

  /** Each label begins with the class it was made from, and (for a non-empty
      marker) differs from it exactly when the class is optional. */
  lemma MarkOptionalSpec(classes: seq<string>, required: seq<string>, marker: string)
    requires marker != ""
    ensures forall i :: 0 <= i < |classes| ==>
              && StartsWith(MarkOptional(classes, required, marker)[i], classes[i])
              && (MarkOptional(classes, required, marker)[i] != classes[i] <==> required != [] && classes[i] !in required)
  {
    var r := MarkOptional(classes, required, marker);
    forall i | 0 <= i < |classes|
      ensures StartsWith(r[i], classes[i])
      ensures r[i] != classes[i] <==> required != [] && classes[i] !in required
    {
      if required != [] && classes[i] !in required {
        assert r[i] == classes[i] + marker;
        assert r[i][..|classes[i]|] == classes[i];
        assert |r[i]| != |classes[i]|;
      }
    }
  }

  // ---------------------------------------------------------------------------
  // Validity and access partitions
  // ---------------------------------------------------------------------------

  /** The classes named by query rows that occur in `classes`, in row order. */
  function Flagged(rows: seq<Option<string>>, classes: seq<string>): (hits: seq<string>)
    ensures forall c :: c in hits ==> Some(c) in rows && c in classes
    ensures forall c :: c in classes && Some(c) in rows ==> c in hits
  {
    if rows == [] then []
    else
      var last := rows[|rows| - 1];
      assert rows == rows[..|rows| - 1] + [last];
      Flagged(rows[..|rows| - 1], classes) + (if last.Some? && last.value in classes then [last.value] else [])
  }

  /** The loop `for class_ in rows: if class_ in classes: hits.append(class_)`,
      shared by the validity check and the access check. */
  method CollectFlagged(rows: seq<Option<string>>, classes: seq<string>) returns (hits: seq<string>)
    ensures hits == Flagged(rows, classes)
  {
    hits := [];
    var i := 0;
    while i < |rows|
      invariant 0 <= i <= |rows|
      invariant hits == Flagged(rows[..i], classes)
    {
      assert rows[..i + 1][..i] == rows[..i];
      var row := rows[i];
      if row.Some? && row.value in classes {
        hits := hits + [row.value];
      }
      i := i + 1;
    }
    assert rows[..i] == rows;
  }

  /** Splitting `classes` by the flagged rows: every class lands on exactly one
      side, the kept side is the input in order with every copy of an unflagged
      class, and the excluded side holds only flagged input classes. */
  lemma {:induction false} PartitionByFlags(classes: seq<string>, rows: seq<Option<string>>)
    ensures var out := Flagged(rows, classes);
            var kept := Without(classes, out);
            && (forall c :: c in out ==> c in classes && Some(c) in rows)
            && (forall c :: c in kept ==> c in classes && Some(c) !in rows)
            && (forall c :: c in classes ==> (c in kept <==> c !in out))
            && Subsequence(kept, classes)
            && (forall c :: Some(c) !in rows ==> multiset(kept)[c] == multiset(classes)[c])
  {
    var out := Flagged(rows, classes);
    FilterSubsequence(classes, x => x !in out);
    FilterCount(classes, x => x !in out);
  }

  /** `neo_validate_classes_to_extract` after its query: `invalidRows` are the
      labels of classes whose count is 0 or missing. */
  method ValidateClassesToExtract(classes: seq<string>, invalidRows: seq<Option<string>>)
    returns (valid: seq<string>, nonValid: seq<string>)
    ensures nonValid == Flagged(invalidRows, classes)
    ensures valid == Without(classes, nonValid)
    ensures forall c :: c in valid ==> c !in nonValid
  {
    nonValid := CollectFlagged(invalidRows, classes);
    valid := Without(classes, nonValid);
  }

  /** Two valid and two invalid labels: the validity check splits them in
      input order. */
  lemma ValidateClassesExample()
    ensures var classes := ["test_label_1", "test_label_2", "test_label_3", "test_label_4"];
            var rows := [Some("test_label_3"), Some("test_label_4")];
            var nonValid := Flagged(rows, classes);
            nonValid == ["test_label_3", "test_label_4"]
            && Without(classes, nonValid) == ["test_label_1", "test_label_2"]
  {
    var classes := ["test_label_1", "test_label_2", "test_label_3", "test_label_4"];
    var rows := [Some("test_label_3"), Some("test_label_4")];
    assert rows[..1] == [Some("test_label_3")];
    assert classes[2] == "test_label_3" && classes[3] == "test_label_4";
    assert Flagged(rows[..1], classes) == ["test_label_3"];
    var nonValid := Flagged(rows, classes);
    assert nonValid == ["test_label_3", "test_label_4"];
    var keep := (x: string) => x !in nonValid;
    assert classes[..3][..2][..1] == ["test_label_1"];
    assert classes[..3][..2] == ["test_label_1", "test_label_2"];
    assert classes[..3] == ["test_label_1", "test_label_2", "test_label_3"];
    assert Filter(classes[..3][..2], keep) == ["test_label_1", "test_label_2"];
  }

  /** `if user_role:` (None and the empty string are both falsy). */
  predicate RoleGiven(userRole: Option<string>)
  {
    userRole.Some? && userRole.value != ""
  }

  function RoleMissing(role: string): string
  {
    "User Role " + role + " does not exist"
  }

  /** The result of the access check when it does not raise. */
  function AccessSplit(classes: seq<string>, userRole: Option<string>, roleRows: seq<Option<string>>): (seq<string>, seq<string>)
  {
    if RoleGiven(userRole) then
      var noAccess := Flagged(roleRows, classes);
      (Without(classes, noAccess), noAccess)
    else (classes, [])
  }

  /** `neo_validate_access` after its query: `roleRows` holds one row per
      restricted class of the role, one row with a null class when the role has
      no restriction, and no row when the role does not exist. */
  method ValidateAccess(classes: seq<string>, userRole: Option<string>, roleRows: seq<Option<string>>)
    returns (r: Result<(seq<string>, seq<string>), string>)
    ensures r.Failure? <==> RoleGiven(userRole) && roleRows == []
    ensures r.Failure? ==> r.error == RoleMissing(userRole.value)
    ensures r.Success? ==> r.value == AccessSplit(classes, userRole, roleRows)
  {
    var noAccess: seq<string> := [];
    if RoleGiven(userRole) {
      if roleRows == [] {
        return Failure(RoleMissing(userRole.value));
      }
      noAccess := CollectFlagged(roleRows, classes);
    }
    var hasAccess := Without(classes, noAccess);
    if !RoleGiven(userRole) {
      FilterAll(classes, x => x !in noAccess);
    }
    r := Success((hasAccess, noAccess));
  }

  lemma {:induction false} FlaggedOfNullRows(rows: seq<Option<string>>, classes: seq<string>)
    requires forall row :: row in rows ==> row.None?
    ensures Flagged(rows, classes) == []
  {
    if rows != [] {
      FlaggedOfNullRows(rows[..|rows| - 1], classes);
    }
  }

  /** Without a role, or with a role whose only row carries no class, every class
      is accessible and nothing is restricted. */
  lemma UnrestrictedAccess(classes: seq<string>, userRole: Option<string>, roleRows: seq<Option<string>>)
    requires !RoleGiven(userRole) || forall row :: row in roleRows ==> row.None?
    ensures AccessSplit(classes, userRole, roleRows) == (classes, [])
  {
    if RoleGiven(userRole) {
      FlaggedOfNullRows(roleRows, classes);
    }
    FilterAll(classes, x => x !in []);
  }

  // ---------------------------------------------------------------------------
  // Relationship pruning
  // ---------------------------------------------------------------------------

  /** The relationships that mention none of the excluded classes. */
  function CleanRels(rels: seq<Rel>, excluded: seq<string>): seq<Rel>
  {
    Filter(rels, r => !MentionsAny(r, excluded))
  }

  /** `filter_classes_from_rels`: the nested loop over relationships and
      excluded classes. The list of dropped relationships is only printed in the
      source and is not kept here. */
  method FilterClassesFromRels(rels: seq<Rel>, classes: seq<string>) returns (clean: seq<Rel>)
    ensures clean == CleanRels(rels, classes)
  {
    clean := [];
    var i := 0;
    while i < |rels|
      invariant 0 <= i <= |rels|
      invariant clean == CleanRels(rels[..i], classes)
    {
      var relsDict := rels[i];
      var intersect := false;
      var j := 0;
      while j < |classes|
        invariant 0 <= j <= |classes|
        invariant intersect <==> exists k :: 0 <= k < j && Mentions(relsDict, classes[k])
      {
        if Mentions(relsDict, classes[j]) {
          intersect := true;
        }
        j := j + 1;
      }
      assert intersect <==> MentionsAny(relsDict, classes);
      FilterSnoc(rels, i, r => !MentionsAny(r, classes));
      if !intersect {
        clean := clean + [relsDict];
      }
      i := i + 1;
    }
    assert rels[..i] == rels;
  }

  /** The pruned list keeps, in order, exactly the relationships none of whose
      values is an excluded class, with their multiplicity. */
  lemma CleanRelsSpec(rels: seq<Rel>, excluded: seq<string>)
    ensures Subsequence(CleanRels(rels, excluded), rels)
    ensures forall r, c :: r in CleanRels(rels, excluded) && c in excluded ==> !Mentions(r, c)
    ensures forall r :: r in rels && !MentionsAny(r, excluded) ==> r in CleanRels(rels, excluded)
    ensures forall r :: !MentionsAny(r, excluded) ==> multiset(CleanRels(rels, excluded))[r] == multiset(rels)[r]
  {
    FilterSubsequence(rels, r => !MentionsAny(r, excluded));
    FilterCount(rels, r => !MentionsAny(r, excluded));
    FilterMembership(rels, r => !MentionsAny(r, excluded));
  }

  /** Pruning against no class keeps every relationship. */
  lemma CleanRelsNoExclusion(rels: seq<Rel>)
    ensures CleanRels(rels, []) == rels
  {
    FilterAll(rels, r => !MentionsAny(r, []));
  }
}
