/** `get_compare_tables`: picks, for each requested domain, the file of a
    folder whose name before the first `.` is that domain, ignoring case. The
    folder listing (`os.listdir`) is an input sequence of file names. */
module ComparisonUtils {
  import opened Common

  /** `file.split('.')[0].upper()`: the upper-cased name up to the first `.`,
      or the whole name when it has none. */
  function Key(file: string): (k: string)
    ensures exists n :: 0 <= n <= |file| && '.' !in file[..n] && (n < |file| ==> file[n] == '.')
                        && k == Upper(file[..n])
  {
    var stem := Split(file, '.')[0];
    SplitHead(file, '.');
    assert '.' !in file[..|stem|];
    Upper(stem)
  }

  /** The dict the loop builds from the listing: a file whose key is wanted is
      stored under its key, a later file replacing an earlier one. Every key is
      a wanted one. */
  function CompareTables(listing: seq<string>, wanted: seq<string>): (files: map<string, string>)
    ensures forall k :: k in files ==> k in wanted
  {
    if listing == [] then map[]
    else
      var files := CompareTables(listing[..|listing| - 1], wanted);
      var file := listing[|listing| - 1];
      if Key(file) in wanted then files[Key(file) := file] else files
  }

  /** `get_compare_tables(folder, domains)` with the folder's listing given. */
  method GetCompareTables(listing: seq<string>, domains: seq<string>) returns (files: map<string, string>)
    ensures files == CompareTables(listing, MapSeq(domains, Upper))
  {
    var wanted := MapSeq(domains, Upper);
    files := map[];
    var i := 0;
    while i < |listing|
      invariant 0 <= i <= |listing|
      invariant files == CompareTables(listing[..i], wanted)
    {
      assert listing[..i + 1][..i] == listing[..i];
      var file := listing[i];
      var currentDomain := Key(file);
      if currentDomain in wanted {
        files := files[currentDomain := file];
      }
      i := i + 1;
    }
    assert listing[..i] == listing;
  }

  /** Some file of the listing has key `k`. */
  ghost predicate Listed(listing: seq<string>, k: string)
  {
    exists j :: 0 <= j < |listing| && Key(listing[j]) == k
  }

  /** `listing[j]` is the last file of the listing with key `k`. */
  ghost predicate LastWithKey(listing: seq<string>, k: string, j: int)
  {
    0 <= j < |listing| && Key(listing[j]) == k && forall j' :: j < j' < |listing| ==> Key(listing[j']) != k
  }

  /** A key is present exactly when it is wanted and some file has it. */
  lemma {:induction false} CompareTablesKeys(listing: seq<string>, wanted: seq<string>)
    ensures forall k :: k in CompareTables(listing, wanted) <==> k in wanted && Listed(listing, k)
  {
    if listing != [] {
      var n := |listing| - 1;
      var init := listing[..n];
      CompareTablesKeys(init, wanted);
      forall k
        ensures Listed(listing, k) <==> Listed(init, k) || Key(listing[n]) == k
      {
        if Listed(listing, k) && Key(listing[n]) != k {
          var j :| 0 <= j < |listing| && Key(listing[j]) == k;
          assert init[j] == listing[j];
        }
        if Listed(init, k) {
          var j :| 0 <= j < |init| && Key(init[j]) == k;
          assert listing[j] == init[j];
        }
      }
    }
  }

  /** The file stored under a key is the LAST file of the listing with that
      key. */
  lemma {:induction false} CompareTablesLastWins(listing: seq<string>, wanted: seq<string>)
    ensures forall k :: k in CompareTables(listing, wanted) ==>
              exists j :: LastWithKey(listing, k, j) && listing[j] == CompareTables(listing, wanted)[k]
  {
    if listing != [] {
      CompareTablesLastWins(listing[..|listing| - 1], wanted);
      forall k | k in CompareTables(listing, wanted)
        ensures exists j :: LastWithKey(listing, k, j) && listing[j] == CompareTables(listing, wanted)[k]
      {
        LastWinsStep(listing, wanted, k);
      }
    }
  }

  /** The inductive step of `CompareTablesLastWins` for one key. */
  lemma LastWinsStep(listing: seq<string>, wanted: seq<string>, k: string)
    requires listing != []
    requires var init := listing[..|listing| - 1];
             forall k' :: k' in CompareTables(init, wanted) ==>
               exists j :: LastWithKey(init, k', j) && init[j] == CompareTables(init, wanted)[k']
    requires k in CompareTables(listing, wanted)
    ensures exists j :: LastWithKey(listing, k, j) && listing[j] == CompareTables(listing, wanted)[k]
  {
    var n := |listing| - 1;
    var init := listing[..n];
    var last := listing[n];
    var files := CompareTables(listing, wanted);
    var before := CompareTables(init, wanted);
    if k == Key(last) && k in wanted {
      assert LastWithKey(listing, k, n);
    } else {
      assert k in before && files[k] == before[k];
      var j :| LastWithKey(init, k, j) && init[j] == before[k];
      assert listing[j] == init[j];
      forall j' | j < j' < |listing|
        ensures Key(listing[j']) != k
      {
        if j' < n {
          assert listing[j'] == init[j'];
        }
      }
    }
  }

  /** Matching ignores case on both sides: every key is a requested domain in
      upper case, and a requested domain in any case is found when some file's
      name before the first `.` equals it up to case. */
  lemma CompareTablesCaseInsensitive(listing: seq<string>, domains: seq<string>)
    ensures var files := CompareTables(listing, MapSeq(domains, Upper));
            forall k :: k in files ==> exists d :: d in domains && Upper(d) == k
    ensures var files := CompareTables(listing, MapSeq(domains, Upper));
            forall d, j :: d in domains && 0 <= j < |listing| && Key(listing[j]) == Upper(d) ==> Upper(d) in files
  {
    var wanted := MapSeq(domains, Upper);
    CompareTablesKeys(listing, wanted);
    var files := CompareTables(listing, wanted);
    forall k | k in files
      ensures exists d :: d in domains && Upper(d) == k
    {
      var i :| 0 <= i < |wanted| && wanted[i] == k;
      assert domains[i] in domains;
    }
    forall d, j | d in domains && 0 <= j < |listing| && Key(listing[j]) == Upper(d)
      ensures Upper(d) in files
    {
      var i :| 0 <= i < |domains| && domains[i] == d;
      assert wanted[i] == Upper(d);
      assert Listed(listing, Upper(d));
    }
  }

  /** Every value is a file of the listing, stored under its own key. */
  lemma CompareTablesValues(listing: seq<string>, wanted: seq<string>)
    ensures var files := CompareTables(listing, wanted);
            forall k :: k in files ==> Key(files[k]) == k && files[k] in listing
  {
    CompareTablesLastWins(listing, wanted);
    var files := CompareTables(listing, wanted);
    forall k | k in files
      ensures Key(files[k]) == k && files[k] in listing
    {
      var j :| LastWithKey(listing, k, j) && listing[j] == files[k];
    }
  }
}
