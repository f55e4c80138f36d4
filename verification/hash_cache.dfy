/**
 The hash cache: `calculatehashes` turns a directory listing and a table of digests
 from an earlier run into the table for this run. A listed file that already has a
 digest keeps it verbatim and is never read; every other listed file is read and
 hashed; digests of files that are no longer listed are dropped.
 */
module HashCache {
  import opened Results
  import opened Paths

  type FileName = string
  type Digest = string

  /** File name to fuzzy-hash digest, as loaded from and saved to the hash database. */
  type HashTable = map<FileName, Digest>

  /** Why building the table stopped: reading or hashing this file failed. */
  datatype HashError = UnreadableArtifact(file: FileName)

  /** The listed files that are not in the old table, in listing order: exactly the
      files the loop hands to the digest function (a name listed twice is hashed twice). */
  function Misses(dirlist: seq<FileName>, oldhashes: HashTable): (r: seq<FileName>)
  {
    if |dirlist| == 0 then []
    else
      var f := dirlist[|dirlist| - 1];
      var earlier := Misses(dirlist[..|dirlist| - 1], oldhashes);
      if f in oldhashes then earlier else earlier + [f]
  }

  /** A file is hashed exactly when it is listed and not cached; there are never more
      digest calls than listed files. */
  lemma {:induction false} MissesAreUncached(dirlist: seq<FileName>, oldhashes: HashTable)
    ensures forall f :: f in Misses(dirlist, oldhashes) <==> f in dirlist && f !in oldhashes
    ensures |Misses(dirlist, oldhashes)| <= |dirlist|
  {
    if |dirlist| > 0 {
      var earlier := dirlist[..|dirlist| - 1];
      MissesAreUncached(earlier, oldhashes);
      assert dirlist == earlier + [dirlist[|dirlist| - 1]];
    }
  }

  /** Every file the loop would hash can be read. */
  ghost predicate AllReadable(dirlist: seq<FileName>, oldhashes: HashTable, hashFile: FileName -> Option<Digest>)
  {
    forall f :: f in dirlist && f !in oldhashes ==> hashFile(f).Some?
  }

  /** The table a successful run produces, stated per key: one entry per listed file,
      the old digest where there is one and the file's fresh digest otherwise. */
  function Merged(dirlist: seq<FileName>, oldhashes: HashTable, hashFile: FileName -> Option<Digest>): (r: HashTable)
    requires AllReadable(dirlist, oldhashes, hashFile)
  {
    map f | f in dirlist :: if f in oldhashes then oldhashes[f] else hashFile(f).value
  }

  /** One more listed file extends the misses and the table by that file alone. */
  lemma MergeStep(dirlist: seq<FileName>, oldhashes: HashTable, hashFile: FileName -> Option<Digest>, i: nat)
    requires i < |dirlist|
    requires AllReadable(dirlist[..i], oldhashes, hashFile)
    requires dirlist[i] !in oldhashes ==> hashFile(dirlist[i]).Some?
    ensures Misses(dirlist[..i + 1], oldhashes)
         == Misses(dirlist[..i], oldhashes) + (if dirlist[i] in oldhashes then [] else [dirlist[i]])
    ensures AllReadable(dirlist[..i + 1], oldhashes, hashFile)
    ensures Merged(dirlist[..i + 1], oldhashes, hashFile)
         == Merged(dirlist[..i], oldhashes, hashFile)[dirlist[i] :=
              if dirlist[i] in oldhashes then oldhashes[dirlist[i]] else hashFile(dirlist[i]).value]
  {
    var next := dirlist[..i + 1];
    assert next[..|next| - 1] == dirlist[..i];
    assert forall g :: g in next <==> g in dirlist[..i] || g == dirlist[i];
  }

  /** Taking a longer prefix of the listing only appends to the misses. */
  lemma {:induction false} MissesOfPrefix(dirlist: seq<FileName>, oldhashes: HashTable, i: nat)
    requires i <= |dirlist|
    ensures Misses(dirlist[..i], oldhashes) <= Misses(dirlist, oldhashes)
    decreases |dirlist| - i
  {
    if i < |dirlist| {
      var longer := dirlist[..i + 1];
      assert longer[..|longer| - 1] == dirlist[..i];
      MissesOfPrefix(dirlist, oldhashes, i + 1);
    } else {
      assert dirlist[..i] == dirlist;
    }
  }

  /**
   `calculatehashes(directory, oldhashes)`: `hashFile` stands for reading a listed file
   and hashing its content; None means the read failed, which raises out of the loop
   and loses the table built so far. `hashed` records, in order, every file the
   digest function was called on.
   */
  method CalculateHashes(dirlist: seq<FileName>, oldhashes: HashTable, hashFile: FileName -> Option<Digest>)
    returns (r: Result<HashTable, HashError>, hashed: seq<FileName>)
    ensures hashed <= Misses(dirlist, oldhashes)
    ensures r.Success? <==> AllReadable(dirlist, oldhashes, hashFile)
    ensures r.Success? ==> hashed == Misses(dirlist, oldhashes)
    ensures r.Success? ==> r.value.Keys == set f | f in dirlist
    ensures r.Success? ==> forall f :: f in r.value && f in oldhashes ==> r.value[f] == oldhashes[f]
    ensures r.Success? ==> forall f :: f in r.value && f !in oldhashes ==> Some(r.value[f]) == hashFile(f)
    ensures r.Success? && AllReadable(dirlist, oldhashes, hashFile) ==> r.value == Merged(dirlist, oldhashes, hashFile)
    ensures r.Failure? ==> |hashed| > 0 && r.error == UnreadableArtifact(hashed[|hashed| - 1])
    ensures r.Failure? ==> hashFile(hashed[|hashed| - 1]).None?
    ensures r.Failure? ==> forall s :: 0 <= s < |hashed| - 1 ==> hashFile(hashed[s]).Some?
  {
    var ourhashes: HashTable := map[];
    hashed := [];
    var i := 0;
    while i < |dirlist|
      invariant 0 <= i <= |dirlist|
      invariant hashed == Misses(dirlist[..i], oldhashes)
      invariant forall f :: f in hashed ==> hashFile(f).Some?
      invariant AllReadable(dirlist[..i], oldhashes, hashFile)
      invariant ourhashes == Merged(dirlist[..i], oldhashes, hashFile)
    {
      var f := dirlist[i];
      if f in oldhashes {
        MergeStep(dirlist, oldhashes, hashFile, i);
        ourhashes := ourhashes[f := oldhashes[f]];
      } else {
        var d := hashFile(f);
        if d.None? {
          var next := dirlist[..i + 1];
          assert next[..|next| - 1] == dirlist[..i];
          MissesOfPrefix(dirlist, oldhashes, i + 1);
          hashed := hashed + [f];
          r := Failure(UnreadableArtifact(f));
          return;
        }
        MergeStep(dirlist, oldhashes, hashFile, i);
        hashed := hashed + [f];
        ourhashes := ourhashes[f := d.value];
      }
      i := i + 1;
    }
    assert dirlist[..i] == dirlist;
    MergedEntries(dirlist, oldhashes, hashFile);
    r := Success(ourhashes);
  }

  /** The digest function over listed names that the corrected source uses: the file
      is read at its path inside `directory`. `readDigest` stands for
      `ssdeep.hash_from_file` on a path, None when the file cannot be read. */
  function DigestOf(directory: Path, readDigest: Path -> Option<Digest>): (r: FileName -> Option<Digest>)
  {
    f => readDigest(ArtifactPath(directory, f))
  }

  /** `calculatehashes(directory, oldhashes)` with the path of each listed file formed
      inside the listed directory. */
  method CalculateHashesIn(directory: Path, dirlist: seq<FileName>, oldhashes: HashTable,
                           readDigest: Path -> Option<Digest>)
    returns (r: Result<HashTable, HashError>, hashed: seq<FileName>)
    ensures hashed <= Misses(dirlist, oldhashes)
    ensures r.Success? <==> forall f :: f in dirlist && f !in oldhashes ==> readDigest(ArtifactPath(directory, f)).Some?
    ensures r.Success? ==> hashed == Misses(dirlist, oldhashes)
    ensures r.Success? ==> r.value.Keys == set f | f in dirlist
    ensures r.Success? ==> forall f :: f in r.value && f in oldhashes ==> r.value[f] == oldhashes[f]
    ensures r.Success? ==> forall f :: f in r.value && f !in oldhashes ==> Some(r.value[f]) == readDigest(ArtifactPath(directory, f))
    ensures r.Failure? ==> |hashed| > 0 && r.error == UnreadableArtifact(hashed[|hashed| - 1])
    ensures r.Failure? ==> readDigest(ArtifactPath(directory, hashed[|hashed| - 1])).None?
    ensures r.Failure? ==> forall s :: 0 <= s < |hashed| - 1 ==> readDigest(ArtifactPath(directory, hashed[s])).Some?
  {
    r, hashed := CalculateHashes(dirlist, oldhashes, DigestOf(directory, readDigest));
  }

  /**
   Re-running on the same listing with the previous result as the old table hashes
   nothing (no misses, so the digest function is never called and cannot fail) and
   reproduces the previous table, whatever the files now contain.
   */
  lemma RerunIsCacheHit(dirlist: seq<FileName>, oldhashes: HashTable,
                        hashFile: FileName -> Option<Digest>, laterHashFile: FileName -> Option<Digest>)
    requires AllReadable(dirlist, oldhashes, hashFile)
    ensures Misses(dirlist, Merged(dirlist, oldhashes, hashFile)) == []
    ensures AllReadable(dirlist, Merged(dirlist, oldhashes, hashFile), laterHashFile)
    ensures Merged(dirlist, Merged(dirlist, oldhashes, hashFile), laterHashFile) == Merged(dirlist, oldhashes, hashFile)
  {
    NoMissesWhenAllCached(dirlist, Merged(dirlist, oldhashes, hashFile));
  }

  /** A listing whose every file is cached costs no digest call. */
  lemma {:induction false} NoMissesWhenAllCached(dirlist: seq<FileName>, oldhashes: HashTable)
    requires forall f :: f in dirlist ==> f in oldhashes
    ensures Misses(dirlist, oldhashes) == []
  {
    if |dirlist| > 0 {
      var earlier := dirlist[..|dirlist| - 1];
      assert forall f :: f in earlier ==> f in dirlist;
      NoMissesWhenAllCached(earlier, oldhashes);
    }
  }

  /** What a table built by `Merged` holds, key by key. */
  lemma MergedEntries(dirlist: seq<FileName>, oldhashes: HashTable, hashFile: FileName -> Option<Digest>)
    requires AllReadable(dirlist, oldhashes, hashFile)
    ensures Merged(dirlist, oldhashes, hashFile).Keys == set f | f in dirlist
    ensures forall f :: f in dirlist && f in oldhashes ==> Merged(dirlist, oldhashes, hashFile)[f] == oldhashes[f]
    ensures forall f :: f in dirlist && f !in oldhashes ==> Some(Merged(dirlist, oldhashes, hashFile)[f]) == hashFile(f)
  {
  }

  /** A cached `a` and a new `b`: `a` keeps its old digest and only `b` is hashed. */
  lemma CachedAndNewFile(hashFile: FileName -> Option<Digest>)
    requires hashFile("b").Some?
    ensures Misses(["a", "b"], map["a" := "X"]) == ["b"]
    ensures AllReadable(["a", "b"], map["a" := "X"], hashFile)
    ensures Merged(["a", "b"], map["a" := "X"], hashFile) == map["a" := "X", "b" := hashFile("b").value]
  {
    var dirlist: seq<FileName> := ["a", "b"];
    assert dirlist[..1] == ["a"];
    assert ["a"][..0] == [];
    assert "a" != "b";
  }
}
