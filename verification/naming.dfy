/** `Measurement.validate_file_name`: the collision-safe choice of an output
    path. The folder's contents are the set of paths that name existing
    files; `os.path.join` is the POSIX join. */
module Naming {
  import opened Wrappers
  import opened Exceptions
  import Text
  import Numbers

  /** `os.path.join(folder, name)`: an absolute name replaces the folder,
      otherwise a `/` is inserted unless the folder is empty or already ends
      with one. */
  function PathJoin(folder: string, name: string): string {
    if |name| > 0 && name[0] == '/' then name
    else if |folder| == 0 || folder[|folder| - 1] == '/' then folder + name
    else folder + "/" + name
  }

  /** The text in front of a relative name once it is joined to `folder`. */
  function FolderPrefix(folder: string): string {
    if |folder| == 0 || folder[|folder| - 1] == '/' then folder else folder + "/"
  }

  /** Joining keeps the name as the tail of the path, after a prefix that
      depends only on the folder and on whether the name is absolute. */
  lemma PathJoinShape(folder: string, name: string)
    ensures |name| > 0 && name[0] == '/' ==> PathJoin(folder, name) == name
    ensures !(|name| > 0 && name[0] == '/') ==> PathJoin(folder, name) == FolderPrefix(folder) + name
  {
  }

  /** `(name.split('.')[0], name.split('.')[1])`: the text before the first
      period and the text between the first and the second; a name without a
      period raises `IndexError`. */
  function NameParts(name: string): (r: Result<(string, string), Exception>)
    ensures r.Success? <==> '.' in name
    ensures r.Failure? ==> r.error == IndexError
    ensures r.Success? ==>
      var (base, ext) := r.value;
      && '.' !in base && '.' !in ext
      && |base| + 1 + |ext| <= |name|
      && name[..|base|] == base
      && name[|base|] == '.'
      && name[|base| + 1..|base| + 1 + |ext|] == ext
      && (|base| + 1 + |ext| == |name| || name[|base| + 1 + |ext|] == '.')
  {
    var fields := Text.Split(name, '.');
    if |fields| < 2 then
      assert name == fields[0];
      Failure(IndexError)
    else
      var rest := Text.Join(fields[1..], '.');
      assert name == fields[0] + "." + rest;
      if |fields| == 2 then
        assert rest == fields[1];
        Success((fields[0], fields[1]))
      else
        assert rest == fields[1] + "." + Text.Join(fields[2..], '.');
        assert name == fields[0] + "." + fields[1] + "." + Text.Join(fields[2..], '.');
        Success((fields[0], fields[1]))
  }

  /** The `i`-th alternative path: `join(folder, f"{base}_{i}.{ext}")`. */
  function Probe(folder: string, base: string, ext: string, i: nat): string {
    PathJoin(folder, base + "_" + Numbers.NatToString(i) + "." + ext)
  }

  /** Different counters give different alternative paths, which is why the
      probing cannot revisit a path. */
  lemma ProbeInjective(folder: string, base: string, ext: string, i: nat, j: nat)
    requires Probe(folder, base, ext, i) == Probe(folder, base, ext, j)
    ensures i == j
  {
    var di := Numbers.NatToString(i);
    var dj := Numbers.NatToString(j);
    var ni := base + "_" + di + "." + ext;
    var nj := base + "_" + dj + "." + ext;
    assert ni[0] == nj[0] by {
      if |base| > 0 { assert ni[0] == base[0] == nj[0]; } else { assert ni[0] == '_' == nj[0]; }
    }
    PathJoinShape(folder, ni);
    PathJoinShape(folder, nj);
    if !(ni[0] == '/') {
      assert FolderPrefix(folder) + ni == FolderPrefix(folder) + nj;
      assert ni == (FolderPrefix(folder) + ni)[|FolderPrefix(folder)|..];
    }
    assert ni == nj;
    assert |di| == |dj| by {
      assert |ni| == |base| + 1 + |di| + 1 + |ext|;
      assert |nj| == |base| + 1 + |dj| + 1 + |ext|;
    }
    assert di == dj by {
      forall t | 0 <= t < |di|
        ensures di[t] == dj[t]
      {
        assert ni[|base| + 1 + t] == di[t];
        assert nj[|base| + 1 + t] == dj[t];
      }
    }
    Numbers.NatToStringInjective(i, j);
  }

  /** Alternative `k` is free and every one before it, from 1 up, is taken. */
  ghost predicate ProbeIsFirstFree(folder: string, base: string, ext: string, existing: set<string>, k: nat) {
    && 1 <= k
    && Probe(folder, base, ext, k) !in existing
    && forall j: nat :: 1 <= j < k ==> Probe(folder, base, ext, j) in existing
  }

  /** What `validate_file_name` promises about the path `p` it returns for
      `name` against the existing files: the plain join when that is free,
      otherwise the alternative with the smallest counter from 1 up that is
      free, every smaller one being taken. */
  ghost predicate Resolves(folder: string, name: string, existing: set<string>, p: string)
    requires '.' in name
  {
    var (base, ext) := NameParts(name).value;
    if PathJoin(folder, name) !in existing then p == PathJoin(folder, name)
    else exists k: nat :: ProbeIsFirstFree(folder, base, ext, existing, k) && p == Probe(folder, base, ext, k)
  }

  /** At most one path meets that description. */
  lemma ResolvesUnique(folder: string, name: string, existing: set<string>, p: string, q: string)
    requires '.' in name
    requires Resolves(folder, name, existing, p) && Resolves(folder, name, existing, q)
    ensures p == q
  {
    var (base, ext) := NameParts(name).value;
    if PathJoin(folder, name) in existing {
      var kp: nat :| ProbeIsFirstFree(folder, base, ext, existing, kp) && p == Probe(folder, base, ext, kp);
      var kq: nat :| ProbeIsFirstFree(folder, base, ext, existing, kq) && q == Probe(folder, base, ext, kq);
    }
  }

  /** Adding a path not yet counted removes one from what remains of the
      existing files exactly when it names one of them. */
  lemma RemainingShrinks(existing: set<string>, probed: set<string>, next: string)
    requires next !in probed
    ensures next in existing ==> |existing - (probed + {next})| == |existing - probed| - 1
    ensures next !in existing ==> existing - (probed + {next}) == existing - probed
  {
    if next in existing {
      assert existing - (probed + {next}) == (existing - probed) - {next};
    }
  }

  /** The probing loop of `validate_file_name`: counters 1, 2, ... are tried
      in turn until one names no existing file. It stops because different
      counters name different paths and only finitely many paths exist. */
  method FirstFreeProbe(folder: string, base: string, ext: string, existing: set<string>) returns (k: nat)
    ensures ProbeIsFirstFree(folder, base, ext, existing, k)
  {
    k := 1;
    // the taken alternatives passed over so far
    ghost var passed: set<string> := {};
    while Probe(folder, base, ext, k) in existing
      invariant k >= 1
      invariant forall j: nat :: 1 <= j < k ==> Probe(folder, base, ext, j) in existing
      invariant forall p :: p in passed ==> exists j: nat :: 1 <= j < k && p == Probe(folder, base, ext, j)
      invariant passed <= existing
      decreases |existing - passed|
    {
      var next := Probe(folder, base, ext, k);
      assert next !in passed by {
        forall j: nat | 1 <= j < k && next == Probe(folder, base, ext, j) {
          ProbeInjective(folder, base, ext, k, j);
        }
      }
      RemainingShrinks(existing, passed, next);
      passed := passed + {next};
      k := k + 1;
    }
  }

  /** `validate_file_name(name)` in a folder whose files are `existing`. The
      set is only read. */
  method ValidateFileName(folder: string, name: string, existing: set<string>) returns (r: Result<string, Exception>)
    ensures r.Failure? <==> '.' !in name
    ensures r.Failure? ==> r.error == IndexError
    ensures r.Success? ==> r.value !in existing
    ensures r.Success? ==> Resolves(folder, name, existing, r.value)
  {
    var path := PathJoin(folder, name);
    var taken := path in existing;
    var parts := NameParts(name);
    if parts.Failure? {
      return Failure(parts.error);
    }
    var (base, ext) := parts.value;
    if taken {
      var k := FirstFreeProbe(folder, base, ext, existing);
      path := Probe(folder, base, ext, k);
    }
    return Success(path);
  }

  /** A second period ends the extension: what follows it is dropped. */
  lemma NamePartsExample()
    ensures NameParts("run.tar.gz") == Success(("run", "tar"))
    ensures NameParts("run") == Failure(IndexError)
  {
    var fs := ["run", "tar", "gz"];
    assert Text.Join(fs[2..], '.') == "gz";
    assert Text.Join(fs[1..], '.') == "tar.gz";
    assert Text.Join(fs, '.') == "run.tar.gz";
    Text.SplitJoin(fs, '.');
    Text.SplitNoSeparator("run", '.');
  }

  /** A name with one period splits at it. */
  lemma NamePartsSimpleExample()
    ensures NameParts("out.csv") == Success(("out", "csv"))
  {
    var fs := ["out", "csv"];
    assert Text.Join(fs, '.') == "out.csv";
    Text.SplitJoin(fs, '.');
  }

  /** The plain path and the counters 1 and 2 in decimal. */
  lemma ProbeExample()
    ensures PathJoin("data", "out.csv") == "data/out.csv"
    ensures Probe("data", "out", "csv", 1) == "data/out_1.csv"
    ensures Probe("data", "out", "csv", 2) == "data/out_2.csv"
  {
    assert Numbers.NatToString(1) == "1";
    assert Numbers.NatToString(2) == "2";
  }

  /** With `out_1.csv` taken and `out_2.csv` free, 2 is the first free
      counter. */
  lemma FirstFreeExample()
    ensures ProbeIsFirstFree("data", "out", "csv", {"data/out.csv", "data/out_1.csv"}, 2)
    ensures Probe("data", "out", "csv", 2) == "data/out_2.csv"
  {
    ProbeExample();
  }

  /** With `out.csv` and `out_1.csv` taken in `data`, the output goes to
      `data/out_2.csv`. */
  lemma ResolvesExample()
    ensures Resolves("data", "out.csv", {"data/out.csv", "data/out_1.csv"}, "data/out_2.csv")
  {
    var existing := {"data/out.csv", "data/out_1.csv"};
    NamePartsSimpleExample();
    ProbeExample();
    FirstFreeExample();
    assert ProbeIsFirstFree("data", "out", "csv", existing, 2) && "data/out_2.csv" == Probe("data", "out", "csv", 2);
  }
}
