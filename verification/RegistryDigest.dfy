/** The digest that binds derived state to the registry's exact bytes. */
module RegistryDigest {
  import opened Ordering
  import opened Text

  /** File contents, one character per byte. */
  type Bytes = string

  /** Claim files by name. */
  type Files = map<string, Bytes>

  /** SHA-256, taken to be free of collisions. */
  datatype Digest = Sha256(preimage: Bytes)

  const NUL: char := '\0'

  predicate LexLe(a: string, b: string)
  {
    a == "" || (b != "" && (a[0] < b[0] || (a[0] == b[0] && LexLe(a[1..], b[1..]))))
  }

  lemma LexTotal(a: string, b: string)
    ensures LexLe(a, b) || LexLe(b, a)
    ensures LexLe(a, b) && LexLe(b, a) ==> a == b
  {
    if a != "" && b != "" && a[0] == b[0] {
      LexTotal(a[1..], b[1..]);
      assert a == [a[0]] + a[1..] && b == [b[0]] + b[1..];
    }
  }

  lemma {:induction false} LexTransitive(a: string, b: string, c: string)
    requires LexLe(a, b) && LexLe(b, c)
    ensures LexLe(a, c)
  {
    if a != "" && a[0] == b[0] == c[0] {
      LexTransitive(a[1..], b[1..], c[1..]);
    }
  }

  lemma LexIsTotal()
    ensures TotalOrder(LexLe)
  {
    forall a, b
      ensures LexLe(a, b) || LexLe(b, a)
      ensures LexLe(a, b) && LexLe(b, a) ==> a == b
    {
      LexTotal(a, b);
    }
    forall a, b, c | LexLe(a, b) && LexLe(b, c)
      ensures LexLe(a, c)
    {
      LexTransitive(a, b, c);
    }
  }

  ghost function SortedNames(names: set<string>): (sorted: seq<string>)
    ensures forall n :: n in sorted <==> n in names
  {
    LexIsTotal();
    Sorted(LexLe, names)
  }

  /** Each file contributes its name, a NUL, its bytes and a NUL. */
  ghost function Stream(names: seq<string>, files: Files): Bytes
    requires forall n :: n in names ==> n in files
  {
    if names == [] then ""
    else names[0] + [NUL] + (files[names[0]] + [NUL] + Stream(names[1..], files))
  }

  ghost function DigestOf(files: Files): Digest
  {
    Sha256(Stream(SortedNames(files.Keys), files))
  }

  ghost predicate NulFree(files: Files)
  {
    forall n :: n in files ==> NUL !in n && NUL !in files[n]
  }

  lemma {:induction false} StreamInjective(names: seq<string>, files: Files, names': seq<string>, files': Files)
    requires NulFree(files) && NulFree(files')
    requires forall n :: n in names ==> n in files
    requires forall n :: n in names' ==> n in files'
    requires Stream(names, files) == Stream(names', files')
    ensures names == names'
    ensures forall n :: n in names ==> files[n] == files'[n]
  {
    if names != [] && names' != [] {
      var n, n' := names[0], names'[0];
      var rest, rest' := Stream(names[1..], files), Stream(names'[1..], files');
      CutInjective(n, files[n] + [NUL] + rest, n', files'[n'] + [NUL] + rest', NUL);
      CutInjective(files[n], rest, files'[n'], rest', NUL);
      StreamInjective(names[1..], files, names'[1..], files');
      assert names == [n] + names[1..] && names' == [n'] + names'[1..];
    }
  }

  /** Equal digests mean byte-for-byte equal registries, when names and contents hold no NUL. */
  lemma DigestInjective(files: Files, files': Files)
    requires NulFree(files) && NulFree(files')
    ensures DigestOf(files) == DigestOf(files') <==> files == files'
  {
    if DigestOf(files) == DigestOf(files') {
      StreamInjective(SortedNames(files.Keys), files, SortedNames(files'.Keys), files');
      assert files.Keys == files'.Keys;
    }
  }

  /** With a NUL in a file, two different registries can share a digest. */
  lemma NulBreaksDigest()
    ensures var one, two := map["a" := "x\0b\0y"], map["a" := "x", "b" := "y"];
            one != two && Stream(["a"], one) == Stream(["a", "b"], two)
  {
    var one, two := map["a" := "x\0b\0y"], map["a" := "x", "b" := "y"];
    assert Stream(["a", "b"][1..], two) == "b" + [NUL] + ("y" + [NUL] + "");
    assert "b" !in one;
  }

  lemma StreamStep(done: Bytes, n: string, rest: seq<string>, files: Files)
    requires n in files && forall m :: m in rest ==> m in files
    ensures done + Stream([n] + rest, files) == (done + n + [NUL] + files[n] + [NUL]) + Stream(rest, files)
  {
    assert ([n] + rest)[1..] == rest;
  }

  method SortNames(names: set<string>) returns (sorted: seq<string>)
    ensures sorted == SortedNames(names)
  {
    LexIsTotal();
    sorted := Sort(LexLe, names);
  }

  /** Hashing every claim file in name order. */
  method HashRegistry(files: Files) returns (digest: Digest)
    ensures digest == DigestOf(files)
  {
    var names := SortNames(files.Keys);
    var stream, i := "", 0;
    while i < |names|
      invariant i <= |names|
      invariant stream + Stream(names[i..], files) == Stream(names, files)
    {
      var n := names[i];
      assert n in names && names[i..] == [n] + names[i + 1..];
      StreamStep(stream, n, names[i + 1..], files);
      stream := stream + n + [NUL];
      stream := stream + files[n] + [NUL];
      i := i + 1;
    }
    digest := Sha256(stream);
  }
}
