/** The database file name AppleHealthExtraction.__init__ in
    extractapplehealth.py chooses: `{date}_applehealth{suffix}.db` in the
    data directory, and, unless the run appends to an existing database, the
    first of `…_1.db`, `…_2.db`, … that does not exist yet. The file system
    is the set of existing paths; the data directory is a parameter ending
    in "/", so joining a file name to it is concatenation. */
module DbName {
  import opened Text

  const Extension := ".db"

  /** `dbprefix`: the export date, "_applehealth", and with `append_ver`
      "_ver" and the version with its dots removed. */
  function DbPrefix(datestring: string, appendVer: bool, version: string): string {
    datestring + "_applehealth" + (if appendVer then "_ver" + Without(version, '.') else "")
  }

  /** The k-th name tried: the plain name first, then `_1`, `_2`, … */
  function Candidate(dbpath: string, prefix: string, k: nat): string {
    if k == 0 then dbpath + prefix + Extension
    else dbpath + prefix + "_" + Decimal(k) + Extension
  }

  /** No two tries give the same name. */
  lemma CandidatesDistinct(dbpath: string, prefix: string, j: nat, k: nat)
    requires j != k
    ensures Candidate(dbpath, prefix, j) != Candidate(dbpath, prefix, k)
  {
    var base := dbpath + prefix;
    var cj, ck := Candidate(dbpath, prefix, j), Candidate(dbpath, prefix, k);
    if j == 0 {
      assert cj[|base|] == '.' && ck[|base|] == '_';
    } else if k == 0 {
      assert ck[|base|] == '.' && cj[|base|] == '_';
    } else {
      if Decimal(j) == Decimal(k) {
        DecimalInjective(j, k);
      }
      assert cj[|base| + 1..|cj| - 3] == Decimal(j);
      assert ck[|base| + 1..|ck| - 3] == Decimal(k);
    }
  }

  /** The name the constructor settles on. With `appendToDb` it is the plain
      name, existing or not; otherwise the counter moves on while the name
      exists. */
  method ChooseDbName(dbpath: string, prefix: string, appendToDb: bool, existing: set<string>)
    returns (name: string)
    ensures appendToDb ==> name == Candidate(dbpath, prefix, 0)
    ensures !appendToDb ==> name !in existing
    ensures !appendToDb ==> exists k: nat :: name == Candidate(dbpath, prefix, k)
                                        && forall j :: 0 <= j < k ==> Candidate(dbpath, prefix, j) in existing
  {
    name := dbpath + prefix + Extension;
    if !appendToDb {
      var counter := 1;
      ghost var tried: set<string> := {};
      while name in existing
        invariant 1 <= counter && name == Candidate(dbpath, prefix, counter - 1)
        invariant forall j :: 0 <= j < counter - 1 ==> Candidate(dbpath, prefix, j) in tried
        invariant forall x :: x in tried ==> x in existing
        invariant forall x :: x in tried ==> exists j :: 0 <= j < counter - 1 && x == Candidate(dbpath, prefix, j)
        decreases existing - tried
      {
        forall x | x in tried ensures x != name {
          var j :| 0 <= j < counter - 1 && x == Candidate(dbpath, prefix, j);
          CandidatesDistinct(dbpath, prefix, j, counter - 1);
        }
        tried := tried + {name};
        name := dbpath + prefix + "_" + Decimal(counter) + Extension;
        counter := counter + 1;
      }
    }
  }

  /** The example of a second run on the same export: the plain name is
      taken, so the database gets the `_1` suffix. */
  lemma SecondRunGetsSuffix(dbpath: string, prefix: string, existing: set<string>, name: string)
    requires existing == {Candidate(dbpath, prefix, 0)}
    requires name !in existing
    requires exists k: nat :: name == Candidate(dbpath, prefix, k)
                         && forall j :: 0 <= j < k ==> Candidate(dbpath, prefix, j) in existing
    ensures name == dbpath + prefix + "_1" + Extension
  {
    var k: nat :| name == Candidate(dbpath, prefix, k) && forall j :: 0 <= j < k ==> Candidate(dbpath, prefix, j) in existing;
    assert k != 0;
    if k > 1 {
      assert Candidate(dbpath, prefix, 1) in existing;
      CandidatesDistinct(dbpath, prefix, 0, 1);
    }
    assert Decimal(1) == "1";
  }
}
