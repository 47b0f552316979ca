/** The list logic of `CdiscStandardLoader.link_cdisc` and the arrow choice of
    `propagate_relationships`.

    `link_cdisc` walks the loader's domain-to-sort-order map. For each domain it
    issues a query that stores the domain's `Sort Order` (with its `--SEQ`
    variable added when the sort order lacks it), builds the domain's variable
    list from the sort order, and issues one query per variable setting its
    `Order` to its 1-based position. The graph store that runs those queries is
    not part of this model: a query is a value, and `link_cdisc` returns the
    queries it issues, in order. */
module CdiscStandardLoader {
  import opened Common

  /** Domains that have no `--SEQ` variable. */
  const NO_SEQ_DOMAINS: seq<string> := ["DM", "SV", "TA", "TE", "TV", "TS", "TI"]

  const SEQ: string := "SEQ"

  /** `re.findall('SEQ', var.upper())` is non-empty. */
  predicate MentionsSeq(variable: string)
  {
    Contains(Upper(variable), SEQ)
  }

  /** The variable list of a domain: the sort order's comma-separated entries,
      unchanged and in order, then `<domain>SEQ` exactly when no entry mentions
      SEQ and the domain is not one without a sequence variable. */
  function VariableOrder(domain: string, sortOrder: string): (variables: seq<string>)
    ensures var parts := Split(sortOrder, ',');
            && |parts| <= |variables| && variables[..|parts|] == parts
            && (|variables| == |parts| + 1 <==>
                  (forall v :: v in parts ==> !MentionsSeq(v)) && domain !in NO_SEQ_DOMAINS)
            && (|variables| != |parts| + 1 ==> variables == parts)
            && (|variables| == |parts| + 1 ==> variables[|parts|] == domain + SEQ)
            && (domain in NO_SEQ_DOMAINS ==> variables == parts)
  {
    var variables := Split(sortOrder, ',');
    var mentioning := Filter(variables, MentionsSeq);
    FilterMembership(variables, MentionsSeq);
    assert mentioning != [] ==> mentioning[0] in mentioning;
    if mentioning == [] && domain !in NO_SEQ_DOMAINS then variables + [domain + SEQ]
    else variables
  }

  /** A query `link_cdisc` issues: storing a domain's `Sort Order`, or setting
      the `Order` of one of its variables. */
  datatype Query =
    | SortOrderQuery(domain: string, sortOrder: string)
    | OrderQuery(domain: string, variable: string, order: nat)

  /** One Order query per variable, numbered from 1 (`enumerate(variables,
      start=1)`). */
  function NumberedQueries(domain: string, variables: seq<string>): seq<Query>
  {
    seq(|variables|, i requires 0 <= i < |variables| => OrderQuery(domain, variables[i], i + 1))
  }

  /** The queries issued for one domain. */
  function DomainQueries(domain: string, sortOrder: string): seq<Query>
  {
    [SortOrderQuery(domain, sortOrder)] + NumberedQueries(domain, VariableOrder(domain, sortOrder))
  }

  /** The body of the loop over domains, for one domain: the Sort Order query,
      then the variable list with its SEQ rule, then one Order query per
      variable. */
  method LinkDomain(domain: string, sortOrder: string) returns (queries: seq<Query>)
    ensures queries == DomainQueries(domain, sortOrder)
  {
    queries := [SortOrderQuery(domain, sortOrder)];
    var variables := Split(sortOrder, ',');
    var addSeq := Filter(variables, MentionsSeq);
    if addSeq == [] && domain !in NO_SEQ_DOMAINS {
      variables := variables + [domain + SEQ];
    }
    var orders := SetOrders(domain, variables);
    queries := queries + orders;
  }

  /** The `enumerate` loop: the i-th variable gets Order i. */
  method SetOrders(domain: string, variables: seq<string>) returns (queries: seq<Query>)
    ensures queries == NumberedQueries(domain, variables)
  {
    queries := [];
    var i := 1;
    while i <= |variables|
      invariant 1 <= i <= |variables| + 1
      invariant queries == NumberedQueries(domain, variables[..i - 1])
    {
      queries := queries + [OrderQuery(domain, variables[i - 1], i)];
      i := i + 1;
    }
    assert variables[..i - 1] == variables;
  }

  /** The queries for the domains of `items` (the domain-to-sort-order map as
      its items in order). */
  function LinkQueries(items: seq<(string, string)>): seq<Query>
  {
    if items == [] then []
    else
      var (domain, sortOrder) := items[|items| - 1];
      LinkQueries(items[..|items| - 1]) + DomainQueries(domain, sortOrder)
  }

  /** The loop of `link_cdisc` over the domain-to-sort-order map. */
  method LinkCdisc(items: seq<(string, string)>) returns (queries: seq<Query>)
    ensures queries == LinkQueries(items)
  {
    queries := [];
    var n := 0;
    while n < |items|
      invariant 0 <= n <= |items|
      invariant queries == LinkQueries(items[..n])
    {
      assert items[..n + 1][..n] == items[..n];
      var (domain, sortOrder) := items[n];
      var domainQueries := LinkDomain(domain, sortOrder);
      queries := queries + domainQueries;
      n := n + 1;
    }
    assert items[..n] == items;
  }

  // ---------------------------------------------------------------------------
  // Properties of the variable list
  // ---------------------------------------------------------------------------

  lemma UpperConcat(a: string, b: string)
    ensures Upper(a + b) == Upper(a) + Upper(b)
  {
  }

  /** The appended variable mentions SEQ, so the variable list of every domain
      that can have a sequence variable contains one that mentions SEQ. */
  lemma SeqVariableMentionsSeq(domain: string, sortOrder: string)
    ensures MentionsSeq(domain + SEQ)
    ensures domain !in NO_SEQ_DOMAINS ==> exists v :: v in VariableOrder(domain, sortOrder) && MentionsSeq(v)
  {
    UpperConcat(domain, SEQ);
    var u := Upper(domain + SEQ);
    assert u[|domain|..|domain| + 3] == SEQ;
    assert OccursAt(u, SEQ, |domain|);
    var parts := Split(sortOrder, ',');
    var variables := VariableOrder(domain, sortOrder);
    if domain !in NO_SEQ_DOMAINS {
      if |variables| == |parts| + 1 {
        assert variables[|parts|] in variables;
      } else {
        var v :| v in parts && MentionsSeq(v);
        assert variables == parts;
      }
    }
  }

  /** Running the rule on a sort order that already has its SEQ variable adds
      nothing more. */
  lemma VariableOrderStable(domain: string, sortOrder: string)
    requires ',' !in domain
    ensures var stored := Join(VariableOrder(domain, sortOrder), ',');
            VariableOrder(domain, stored) == VariableOrder(domain, sortOrder)
  {
    var parts := Split(sortOrder, ',');
    JoinSplit(sortOrder, ',');
    FilterMembership(parts, MentionsSeq);
    if Filter(parts, MentionsSeq) == [] && domain !in NO_SEQ_DOMAINS {
      var name := domain + SEQ;
      assert ',' !in name;
      assert Join(parts + [name], ',') == sortOrder + [','] + name by {
        JoinSnoc(parts, name, ',');
      }
      SplitAround(sortOrder, ',', name);
      SplitNoSep(name, ',');
      SeqVariableMentionsSeq(domain, sortOrder);
      FilterMembership(parts + [name], MentionsSeq);
      assert name in Filter(parts + [name], MentionsSeq);
    }
  }

  /** Joining one more piece appends the separator and the piece. */
  lemma {:induction false} JoinSnoc(parts: seq<string>, last: string, sep: char)
    requires parts != []
    ensures Join(parts + [last], sep) == Join(parts, sep) + [sep] + last
  {
    if |parts| > 1 {
      assert (parts + [last])[1..] == parts[1..] + [last];
      JoinSnoc(parts[1..], last, sep);
    }
  }

  /** `q` sets the Order of a variable of `e`'s domain to its 1-based position
      in that domain's variable list. */
  ghost predicate NumberedBy(q: Query, e: (string, string))
  {
    q.OrderQuery? && q.domain == e.0 && 1 <= q.order <= |VariableOrder(e.0, e.1)|
    && VariableOrder(e.0, e.1)[q.order - 1] == q.variable
  }

  /** A domain's queries: its Sort Order query, then exactly one Order query per
      variable, each numbering its variable by position. */
  lemma DomainQueriesNumbered(e: (string, string))
    ensures |DomainQueries(e.0, e.1)| == |VariableOrder(e.0, e.1)| + 1
    ensures DomainQueries(e.0, e.1)[0] == SortOrderQuery(e.0, e.1)
    ensures forall q :: q in DomainQueries(e.0, e.1) && q.OrderQuery? ==> NumberedBy(q, e)
  {
    var qs := DomainQueries(e.0, e.1);
    forall q | q in qs && q.OrderQuery?
      ensures NumberedBy(q, e)
    {
      var i :| 0 <= i < |qs| && qs[i] == q;
      assert i >= 1;
    }
  }

  /** Every Order query of `link_cdisc` numbers a variable of its domain by its
      1-based position in that domain's variable list. */
  lemma {:induction false} LinkQueriesOrders(items: seq<(string, string)>)
    ensures forall q :: q in LinkQueries(items) && q.OrderQuery? ==> exists e :: e in items && NumberedBy(q, e)
  {
    if items != [] {
      var init := items[..|items| - 1];
      var e := items[|items| - 1];
      LinkQueriesOrders(init);
      var tail := DomainQueries(e.0, e.1);
      assert LinkQueries(items) == LinkQueries(init) + tail;
      forall q | q in LinkQueries(items) && q.OrderQuery?
        ensures exists e' :: e' in items && NumberedBy(q, e')
      {
        if q in tail {
          DomainQueriesNumbered(e);
          assert NumberedBy(q, e) && e in items;
        } else {
          var e' :| e' in init && NumberedBy(q, e');
          assert e' in items;
        }
      }
    }
  }

  /** Every domain of `link_cdisc` gets its Sort Order query. */
  lemma {:induction false} LinkQueriesSortOrders(items: seq<(string, string)>)
    ensures forall e :: e in items ==> SortOrderQuery(e.0, e.1) in LinkQueries(items)
  {
    if items != [] {
      var init := items[..|items| - 1];
      var e := items[|items| - 1];
      LinkQueriesSortOrders(init);
      assert items == init + [e];
      var tail := DomainQueries(e.0, e.1);
      assert LinkQueries(items) == LinkQueries(init) + tail;
      assert tail[0] in tail;
    }
  }

  // ---------------------------------------------------------------------------
  // The stored Sort Order
  // ---------------------------------------------------------------------------

  /** The `Sort Order` the first query stores for a domain whose sequence
      variable is `seqVar`: unchanged when `seqVar` is one of its
      comma-separated entries, otherwise with `,<seqVar>` appended. */
  function StoredSortOrder(sortOrder: string, seqVar: string): (stored: string)
    ensures StartsWith(stored, sortOrder)
  {
    if seqVar in Split(sortOrder, ',') then sortOrder else sortOrder + "," + seqVar
  }

  /** After the update the sequence variable is one of the entries, the earlier
      entries are unchanged, and updating again changes nothing. */
  lemma StoredSortOrderSpec(sortOrder: string, seqVar: string)
    requires ',' !in seqVar
    ensures var stored := StoredSortOrder(sortOrder, seqVar);
            && seqVar in Split(stored, ',')
            && Split(stored, ',') == Split(sortOrder, ',') + (if seqVar in Split(sortOrder, ',') then [] else [seqVar])
            && StoredSortOrder(stored, seqVar) == stored
  {
    if seqVar !in Split(sortOrder, ',') {
      assert sortOrder + "," + seqVar == sortOrder + [','] + seqVar;
      SplitAround(sortOrder, ',', seqVar);
      SplitNoSep(seqVar, ',');
    }
  }

  // ---------------------------------------------------------------------------
  // propagate_relationships
  // ---------------------------------------------------------------------------

  /** The arrow heads `(la, ra)` of the SUBCLASS_OF path pattern. Both flags
      (or neither) give an undirected pattern; only `on_children` points the
      path at the children, only `on_parents` at the parents. The pattern
      never carries both arrow heads. */
  function Arrows(onChildren: bool, onParents: bool): (r: (string, string))
    ensures onChildren == onParents ==> r == ("", "")
    ensures onChildren && !onParents ==> r == ("<", "")
    ensures !onChildren && onParents ==> r == ("", ">")
    ensures r.0 == "" || r.1 == ""
  {
    (if (onChildren && onParents) || !onChildren then "" else "<",
     if (onChildren && onParents) || !onParents then "" else ">")
  }
}
