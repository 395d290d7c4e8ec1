/** `get_dataset_dois` of render_dag.py: which Zenodo records hold any of
    the given files. */
module DagDatasets {
  import opened Collections

  /** One record of `config["datasets"]`: `contents` maps names in the
      record to files of the repository; `zip_files` does the same for the
      contents of each zip archive in the record. */
  datatype Dataset = Dataset(contents: map<string, string>, zipFiles: map<string, map<string, string>>)

  /** `file` is among the contents of the record or of one of its archives. */
  predicate Holds(ds: Dataset, file: string) {
    file in ds.contents.Values || exists z :: z in ds.zipFiles && file in ds.zipFiles[z].Values
  }

  /** The record holds one of `files`. */
  predicate HoldsAny(ds: Dataset, files: seq<string>) {
    exists i :: 0 <= i < |files| && Holds(ds, files[i])
  }

  /** One pass of the inner loop: `file` is looked up in the contents, and
      failing that in each archive until one holds it. */
  method LookUp(ds: Dataset, file: string) returns (found: bool)
    ensures found == Holds(ds, file)
  {
    if file in ds.contents.Values {
      return true;
    }
    found := false;
    var pending := ds.zipFiles.Keys;
    while pending != {}
      invariant pending <= ds.zipFiles.Keys
      invariant forall z :: z in ds.zipFiles && z !in pending ==> file !in ds.zipFiles[z].Values
      decreases pending
    {
      var z :| z in pending;
      pending := pending - {z};
      if file in ds.zipFiles[z].Values {
        found := true;
        break;
      }
    }
  }

  /** `get_dataset_dois(files, datasets)`: each DOI whose record holds one
      of the files, each once. */
  method DatasetDois(files: seq<string>, datasets: map<string, Dataset>) returns (dois: seq<string>)
    ensures Distinct(dois)
    ensures forall doi :: doi in dois <==> doi in datasets && HoldsAny(datasets[doi], files)
  {
    var result: seq<string> := [];
    var pending := datasets.Keys;
    while pending != {}
      invariant pending <= datasets.Keys
      invariant forall d :: d in result <==> d in datasets && d !in pending && HoldsAny(datasets[d], files)
      decreases pending
    {
      var doi :| doi in pending;
      pending := pending - {doi};
      for i := 0 to |files|
        invariant forall d :: d != doi ==> (d in result <==> d in datasets && d !in pending && HoldsAny(datasets[d], files))
        invariant doi in result <==> exists j :: 0 <= j < i && Holds(datasets[doi], files[j])
      {
        var found := LookUp(datasets[doi], files[i]);
        if found {
          result := result + [doi];
        }
      }
    }
    dois := ListOfSet(set d | d in result);
  }

  /** Asking about more files can only add DOIs. */
  lemma HoldsAnyMonotone(ds: Dataset, files: seq<string>, more: seq<string>)
    requires HoldsAny(ds, files)
    ensures HoldsAny(ds, files + more) && HoldsAny(ds, more + files)
  {
    var i :| 0 <= i < |files| && Holds(ds, files[i]);
    assert (files + more)[i] == files[i];
    assert (more + files)[|more| + i] == files[i];
  }
}
