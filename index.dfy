/**
 * What the storage operations do to the entry list of the index: append, rename the
 * first entry with a given file name, remove every entry with a given file name, and
 * the list of file names itself.
 */
module Index {
  import opened Prelude
  import opened Models

  function Filenames(es: seq<DefFileEntry>): (r: seq<string>)
    ensures |r| == |es|
    ensures forall i :: 0 <= i < |es| ==> r[i] == es[i].encryptedFilename
  {
    if es == [] then [] else [es[0].encryptedFilename] + Filenames(es[1..])
  }

  /** No two entries name the same file. */
  predicate UniqueFilenames(es: seq<DefFileEntry>)
  {
    forall i, j :: 0 <= i < j < |es| ==> es[i].encryptedFilename != es[j].encryptedFilename
  }

  predicate HasFilename(es: seq<DefFileEntry>, filename: string)
  {
    exists i :: 0 <= i < |es| && es[i].encryptedFilename == filename
  }

  /** The position of the first entry naming `filename`. */
  function FirstIndexOf(es: seq<DefFileEntry>, filename: string): (r: Option<nat>)
    ensures r.Some? ==> r.value < |es| && es[r.value].encryptedFilename == filename
    ensures r.Some? ==> forall j :: 0 <= j < r.value ==> es[j].encryptedFilename != filename
    ensures r.None? <==> !HasFilename(es, filename)
  {
    if es == [] then None
    else if es[0].encryptedFilename == filename then Some(0)
    else
      match FirstIndexOf(es[1..], filename)
      case None =>
        assert forall i :: 1 <= i < |es| ==> es[i] == es[1..][i - 1];
        None
      case Some(k) =>
        assert forall j :: 1 <= j < k + 1 ==> es[j] == es[1..][j - 1];
        Some(k + 1)
  }

  /** An entry with a newly sealed display name. */
  function Renamed(e: DefFileEntry, encryptedName: string, nonce: string): DefFileEntry
  {
    e.(encryptedName := encryptedName, nonce := nonce)
  }

  /** The entry list after renaming the first entry that names `filename`. */
  function RenameFirst(es: seq<DefFileEntry>, filename: string, encryptedName: string,
                       nonce: string): (r: seq<DefFileEntry>)
    ensures |r| == |es|
  {
    if es == [] then []
    else if es[0].encryptedFilename == filename then [Renamed(es[0], encryptedName, nonce)] + es[1..]
    else [es[0]] + RenameFirst(es[1..], filename, encryptedName, nonce)
  }

  /**
   * Renaming changes exactly the first entry naming the file, and only its sealed name;
   * with no such entry the list is unchanged.
   */
  lemma {:induction false} RenameFirstAt(es: seq<DefFileEntry>, filename: string,
                                         encryptedName: string, nonce: string)
    ensures FirstIndexOf(es, filename).None? ==>
              RenameFirst(es, filename, encryptedName, nonce) == es
    ensures FirstIndexOf(es, filename).Some? ==>
              var k := FirstIndexOf(es, filename).value;
              RenameFirst(es, filename, encryptedName, nonce) == es[k := Renamed(es[k], encryptedName, nonce)]
  {
    if es != [] && es[0].encryptedFilename != filename {
      RenameFirstAt(es[1..], filename, encryptedName, nonce);
      assert [es[0]] + es[1..] == es;
      match FirstIndexOf(es[1..], filename)
      case None =>
      case Some(k) =>
        assert [es[0]] + es[1..][k := Renamed(es[1..][k], encryptedName, nonce)]
            == es[k + 1 := Renamed(es[k + 1], encryptedName, nonce)];
    }
  }

  /** Renaming keeps every file name, so it keeps them unique. */
  lemma RenameFirstFilenames(es: seq<DefFileEntry>, filename: string, encryptedName: string,
                             nonce: string)
    ensures Filenames(RenameFirst(es, filename, encryptedName, nonce)) == Filenames(es)
  {
    RenameFirstAt(es, filename, encryptedName, nonce);
  }

  /** `entries.retain(|e| e.encrypted_filename != filename)`. */
  function RemoveAll(es: seq<DefFileEntry>, filename: string): (r: seq<DefFileEntry>)
    ensures |r| <= |es|
    ensures !HasFilename(r, filename)
  {
    if es == [] then []
    else if es[0].encryptedFilename == filename then RemoveAll(es[1..], filename)
    else
      var rest := RemoveAll(es[1..], filename);
      assert forall i :: 1 <= i < |rest| + 1 ==> ([es[0]] + rest)[i] == rest[i - 1];
      [es[0]] + rest
  }

  /** Removal works element by element: it distributes over concatenation. */
  lemma {:induction false} RemoveAllAppend(a: seq<DefFileEntry>, b: seq<DefFileEntry>, filename: string)
    ensures RemoveAll(a + b, filename) == RemoveAll(a, filename) + RemoveAll(b, filename)
  {
    if a == [] {
      assert a + b == b;
    } else {
      assert (a + b)[0] == a[0] && (a + b)[1..] == a[1..] + b;
      RemoveAllAppend(a[1..], b, filename);
    }
  }

  /** Removal keeps a list with no such entry as it is. */
  lemma {:induction false} RemoveAllAbsent(es: seq<DefFileEntry>, filename: string)
    requires !HasFilename(es, filename)
    ensures RemoveAll(es, filename) == es
  {
    if es != [] {
      assert !HasFilename(es[1..], filename) by {
        forall i | 0 <= i < |es[1..]| ensures es[1..][i].encryptedFilename != filename {
          assert es[1..][i] == es[i + 1];
        }
      }
      RemoveAllAbsent(es[1..], filename);
      assert [es[0]] + es[1..] == es;
    }
  }

  /** Removing twice is removing once. */
  lemma RemoveAllIdempotent(es: seq<DefFileEntry>, filename: string)
    ensures RemoveAll(RemoveAll(es, filename), filename) == RemoveAll(es, filename)
  {
    RemoveAllAbsent(RemoveAll(es, filename), filename);
  }

  /** An entry survives removal exactly when it names another file. */
  lemma {:induction false} RemoveAllMembers(es: seq<DefFileEntry>, filename: string, e: DefFileEntry)
    ensures e in RemoveAll(es, filename) <==> e in es && e.encryptedFilename != filename
  {
    if es != [] {
      RemoveAllMembers(es[1..], filename, e);
      assert es == [es[0]] + es[1..];
    }
  }

  /** Removal keeps the remaining entries in their order: it keeps file names unique. */
  lemma {:induction false} RemoveAllKeepsUnique(es: seq<DefFileEntry>, filename: string)
    requires UniqueFilenames(es)
    ensures UniqueFilenames(RemoveAll(es, filename))
  {
    if es != [] {
      assert UniqueFilenames(es[1..]) by {
        forall i, j | 0 <= i < j < |es[1..]|
          ensures es[1..][i].encryptedFilename != es[1..][j].encryptedFilename
        {
          assert es[1..][i] == es[i + 1] && es[1..][j] == es[j + 1];
        }
      }
      RemoveAllKeepsUnique(es[1..], filename);
      var rest := RemoveAll(es[1..], filename);
      if es[0].encryptedFilename != filename {
        forall e | e in rest ensures e.encryptedFilename != es[0].encryptedFilename {
          RemoveAllMembers(es[1..], filename, e);
          var j :| 0 <= j < |es[1..]| && es[1..][j] == e;
          assert es[j + 1] == e;
        }
        var r := [es[0]] + rest;
        forall i, j | 0 <= i < j < |r| ensures r[i].encryptedFilename != r[j].encryptedFilename {
          if i == 0 {
            assert r[j] == rest[j - 1] && r[j] in rest;
          } else {
            assert r[i] == rest[i - 1] && r[j] == rest[j - 1];
          }
        }
      }
    }
  }

  /** Appending an entry with a file name not yet listed keeps file names unique. */
  lemma AppendKeepsUnique(es: seq<DefFileEntry>, e: DefFileEntry)
    requires UniqueFilenames(es) && !HasFilename(es, e.encryptedFilename)
    ensures UniqueFilenames(es + [e])
  {
    var r := es + [e];
    forall i, j | 0 <= i < j < |r| ensures r[i].encryptedFilename != r[j].encryptedFilename {
      if j == |es| {
        assert r[i] == es[i];
      } else {
        assert r[i] == es[i] && r[j] == es[j];
      }
    }
  }
}
