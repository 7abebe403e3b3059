/** The write path of use-gist.ts (`createGist`, lines 110-169): the files are keyed by
    filename, the address is derived from the canonical form, and the record and the list entry
    that are put into the store are built. */
module Publish {
  import opened Wrappers
  import opened Text
  import opened Hex
  import opened Seqs
  import opened Assoc
  import opened Canon
  import opened RecordView

  /** What `createGist` throws. */
  datatype CreateError = GunNotInitialized | HashFailed

  /** What `createGist` writes and returns: the address, the record put under it, and the list
      entry put under the user's `gists` (only when someone is logged in). */
  datatype Publication = Publication(id: string, record: RawNode, listEntry: Option<IndexNode>)

  /** `filesMap` after the `forEach` of use-gist.ts:114-121: each file is assigned as a property
      of a plain object, so a file named `__proto__` leaves no key behind. */
  function FilesMapOf(files: seq<GistFile>): Assoc<GistFile>
  {
    if files == [] then []
    else
      var f := files[|files| - 1];
      SetProperty(FilesMapOf(files[..|files| - 1]), f.filename, WriteFile(f))
  }

  /** A file whose name becomes an own key of `filesMap`. */
  predicate OwnName(f: GistFile)
  {
    f.filename != ProtoKey
  }

  /** The last of the files called k. */
  function LastNamed(files: seq<GistFile>, k: string): Option<GistFile>
  {
    if files == [] then None
    else if files[|files| - 1].filename == k then Some(files[|files| - 1])
    else LastNamed(files[..|files| - 1], k)
  }

  /** A file as `JSON.stringify(filesMap)` writes it: every field present. */
  function StoredPair(p: (string, GistFile)): (string, Entry)
  {
    (p.0, FileValue(RawFile(p.1.filename, p.1.content, Some(p.1.language), Some(p.1.size))))
  }

  function AsJson(fm: Assoc<GistFile>): FileObject
  {
    MapSeq(StoredPair, fm)
  }

  /** The canonical structure of use-gist.ts:124-127. */
  function WriteCanonical(files: seq<GistFile>, description: string): Canonical
  {
    Canonical(if description != "" then description else "", SortByFilename(Values(FilesMapOf(files))))
  }

  /** `createGist(files, description)` at time `now`, with `session` the logged-in user's
      public key, if any. */
  function Publish(files: seq<GistFile>, description: string, gunReady: bool,
                   session: Option<string>, now: int, p: Primitives): Result<Publication, CreateError>
  {
    if !gunReady then Failure(GunNotInitialized)
    else
      match DeriveAddress(p, WriteCanonical(files, description))
      case Failure(_) => Failure(HashFailed)
      case Success(id) =>
        var desc := if description != "" then description else "";
        var record := RawNode(None, Some(id), Some(desc), Encoded(p.encodeFiles(AsJson(FilesMapOf(files)))),
                              Some(now), Some(now), session);
        var entry := IndexNode(Some(id), desc, now, None, Some(if files != [] then files[0].filename else ""));
        Success(Publication(id, record, if session.Some? then Some(entry) else None))
  }

  /** The `forEach` loop filling `filesMap`, then the rest of `createGist`. */
  method CreateGist(files: seq<GistFile>, description: string, gunReady: bool,
                    session: Option<string>, now: int, p: Primitives)
    returns (r: Result<Publication, CreateError>)
    ensures r == Publish(files, description, gunReady, session, now, p)
  {
    if !gunReady {
      return Failure(GunNotInitialized);
    }
    var filesMap: Assoc<GistFile> := [];
    for i := 0 to |files|
      invariant filesMap == FilesMapOf(files[..i])
    {
      var f := files[i];
      assert files[..i + 1][..i] == files[..i];
      filesMap := SetProperty(filesMap, f.filename,
        GistFile(f.filename, f.content, if f.language != "" then f.language else "text",
                 if f.size != 0 then f.size else 0));
    }
    assert files[..|files|] == files;
    var desc := if description != "" then description else "";
    var stable := Canonical(desc, SortByFilename(Values(filesMap)));
    var id: string;
    match p.sha256(p.serialize(stable)) {
      case None => return Failure(HashFailed);
      case Some(digest) => id := AddressOf(digest);
    }
    var newGist := RawNode(None, Some(id), Some(desc), Encoded(p.encodeFiles(AsJson(filesMap))),
                           Some(now), Some(now), session);
    var listEntry := IndexNode(Some(id), desc, now, None, Some(if |files| > 0 then files[0].filename else ""));
    r := Success(Publication(id, newGist, if session.Some? then Some(listEntry) else None));
  }

  /** Keys of `filesMap` are the filenames other than `__proto__`; a repeated filename keeps the
      last file given. */
  lemma {:induction false} FilesMapLastWins(files: seq<GistFile>, k: string)
    ensures UniqueKeys(FilesMapOf(files))
    ensures ProtoKey !in Keys(FilesMapOf(files))
    ensures Get(FilesMapOf(files), k) ==
      if k == ProtoKey then None
      else match LastNamed(files, k) case None => None case Some(f) => Some(WriteFile(f))
  {
    if files != [] {
      var f := files[|files| - 1];
      var prefix := files[..|files| - 1];
      FilesMapLastWins(prefix, k);
      SetPropertyUnique(FilesMapOf(prefix), f.filename, WriteFile(f));
      SetPropertyGet(FilesMapOf(prefix), f.filename, WriteFile(f), k);
    }
  }

  /** The last of the files called k is the one file of that name when there is one. */
  lemma {:induction false} LastNamedSpec(fs: seq<GistFile>, k: string)
    ensures LastNamed(fs, k).None? <==> forall f :: f in fs ==> f.filename != k
    ensures LastNamed(fs, k).Some? ==> LastNamed(fs, k).value in fs && LastNamed(fs, k).value.filename == k
  {
    if fs != [] {
      var prefix := fs[..|fs| - 1];
      assert fs == prefix + [fs[|fs| - 1]];
      LastNamedSpec(prefix, k);
    }
  }

  /** Without repeated filenames, the values of `filesMap` are the files in the order given,
      leaving out one named `__proto__`. */
  lemma {:induction false} FilesMapDistinct(files: seq<GistFile>)
    requires DistinctFilenames(files)
    ensures Values(FilesMapOf(files)) == MapSeq(WriteFile, Filter(OwnName, files))
  {
    if files != [] {
      var f := files[|files| - 1];
      var prefix := files[..|files| - 1];
      assert files == prefix + [f];
      DistinctPrefix(prefix, f);
      FilesMapDistinct(prefix);
      FilterConcat(OwnName, prefix, [f]);
      FilesMapAppend(prefix, f);
      if OwnName(f) {
        MapConcat(WriteFile, Filter(OwnName, prefix), [f]);
      }
    }
  }

  /** One more file appends its written form to the values of `filesMap` when its name is new
      and not `__proto__`, and changes nothing when it is `__proto__`. */
  lemma {:induction false} FilesMapAppend(prefix: seq<GistFile>, f: GistFile)
    requires forall i :: 0 <= i < |prefix| ==> prefix[i].filename != f.filename
    ensures Values(FilesMapOf(prefix + [f])) ==
      Values(FilesMapOf(prefix)) + (if OwnName(f) then [WriteFile(f)] else [])
    ensures Filter(OwnName, [f]) == if OwnName(f) then [f] else []
  {
    var files := prefix + [f];
    assert files[..|files| - 1] == prefix;
    assert [f][1..] == [];
    var m := FilesMapOf(prefix);
    if OwnName(f) {
      AbsentName(prefix, f.filename);
      MapConcat(ValueOf, m, [(f.filename, WriteFile(f))]);
    }
  }

  /** Dropping the last of files with distinct names leaves files with distinct names, none of
      them named like the last. */
  lemma DistinctPrefix(prefix: seq<GistFile>, f: GistFile)
    requires DistinctFilenames(prefix + [f])
    ensures DistinctFilenames(prefix)
    ensures forall i :: 0 <= i < |prefix| ==> prefix[i].filename != f.filename
  {
    var files := prefix + [f];
    assert files[|prefix|] == f;
    forall i, j | 0 <= i < j < |prefix| ensures prefix[i].filename != prefix[j].filename {
      assert prefix[i] == files[i] && prefix[j] == files[j];
    }
    forall i | 0 <= i < |prefix| ensures prefix[i].filename != f.filename {
      assert prefix[i] == files[i];
    }
  }

  /** A filename none of the files has is not a key of `filesMap`. */
  lemma {:induction false} AbsentName(files: seq<GistFile>, k: string)
    requires forall i :: 0 <= i < |files| ==> files[i].filename != k
    ensures k !in Keys(FilesMapOf(files))
  {
    if files != [] {
      var prefix := files[..|files| - 1];
      forall i | 0 <= i < |prefix| ensures prefix[i].filename != k {
        assert prefix[i] == files[i];
      }
      AbsentName(prefix, k);
    }
  }

  /** Every key of `filesMap` is the filename of the file stored under it, so the stored files
      have distinct filenames. */
  lemma {:induction false} FilesMapValuesDistinct(files: seq<GistFile>)
    ensures forall p :: p in FilesMapOf(files) ==> p.1.filename == p.0
    ensures DistinctFilenames(Values(FilesMapOf(files)))
  {
    var m := FilesMapOf(files);
    if files != [] {
      var f := files[|files| - 1];
      var prefix := files[..|files| - 1];
      FilesMapValuesDistinct(prefix);
      forall p | p in m ensures p.1.filename == p.0 {
        if f.filename != ProtoKey {
          PutPairs(FilesMapOf(prefix), f.filename, WriteFile(f), p);
        }
      }
    }
    FilesMapLastWins(files, "");
    var vs := Values(m);
    forall i, j | 0 <= i < j < |vs| ensures vs[i].filename != vs[j].filename {
      assert m[i] in m && m[j] in m;
      assert vs[i] == m[i].1 && vs[j] == m[j].1;
    }
  }

  /** Whatever order the properties of `filesMap` are enumerated in, sorting its values by
      filename gives the same canonical form. */
  lemma WriteCanonicalAnyPropertyOrder(files: seq<GistFile>, description: string, fm: Assoc<GistFile>)
    requires multiset(fm) == multiset(FilesMapOf(files))
    ensures Canonical(if description != "" then description else "", SortByFilename(Values(fm))) ==
      WriteCanonical(files, description)
  {
    FilesMapValuesDistinct(files);
    ValuesPermutation(FilesMapOf(files), fm);
    SortByFilenameCanonical(Values(FilesMapOf(files)), Values(fm));
  }

  /** The write-path canonical form, and so the address, depends only on the last file given
      under each filename. */
  lemma WriteCanonicalLastPerName(f1: seq<GistFile>, f2: seq<GistFile>, description: string)
    requires forall k :: LastNamed(f1, k) == LastNamed(f2, k)
    ensures WriteCanonical(f1, description) == WriteCanonical(f2, description)
  {
    var m1, m2 := FilesMapOf(f1), FilesMapOf(f2);
    forall k ensures Get(m1, k) == Get(m2, k) {
      FilesMapLastWins(f1, k);
      FilesMapLastWins(f2, k);
    }
    FilesMapLastWins(f1, ProtoKey);
    FilesMapLastWins(f2, ProtoKey);
    SameLookups(m1, m2);
    WriteCanonicalAnyPropertyOrder(f2, description, m1);
  }

  /** The write-path canonical form, and so the address, does not depend on the order the
      files are given in, as long as no two share a filename. */
  lemma WriteOrderFree(f1: seq<GistFile>, f2: seq<GistFile>, description: string)
    requires DistinctFilenames(f1) && multiset(f1) == multiset(f2)
    ensures WriteCanonical(f1, description) == WriteCanonical(f2, description)
  {
    forall k ensures LastNamed(f1, k) == LastNamed(f2, k) {
      LastNamedSpec(f1, k);
      LastNamedSpec(f2, k);
      forall f ensures f in f1 <==> f in f2 {
        assert f in f1 <==> f in multiset(f1);
        assert f in f2 <==> f in multiset(f2);
      }
      if LastNamed(f1, k).Some? {
        var a, b := LastNamed(f1, k).value, LastNamed(f2, k).value;
        var i :| 0 <= i < |f1| && f1[i] == a;
        var j :| 0 <= j < |f1| && f1[j] == b;
        assert a == b;
      }
    }
    WriteCanonicalLastPerName(f1, f2, description);
  }

  /** A published address is 32 lowercase hex digits. */
  lemma PublishedAddressShape(files: seq<GistFile>, description: string, gunReady: bool,
                              session: Option<string>, now: int, p: Primitives)
    requires p.Lawful()
    requires Publish(files, description, gunReady, session, now, p).Success?
    ensures var id := Publish(files, description, gunReady, session, now, p).value.id;
      |id| == AddressLength && forall i :: 0 <= i < |id| ==> IsLowerHex(id[i])
  {
    DeriveAddressShape(p, WriteCanonical(files, description));
  }

  /** Round trip: the record `createGist` puts, delivered back with any store metadata, passes
      the read-path check against its own address and is published. */
  lemma PublishedRecordVerifies(files: seq<GistFile>, description: string, gunReady: bool,
                                session: Option<string>, now: int, p: Primitives, meta: Option<NodeMeta>)
    requires p.Lawful()
    requires Publish(files, description, gunReady, session, now, p).Success?
    ensures var pub := Publish(files, description, gunReady, session, now, p).value;
      var delivered := pub.record.(meta := meta);
      && Listen(pub.id, Some(delivered), p) == Verified(Normalized(delivered, p))
      && ListenStrict(pub.id, Some(delivered), p) == Verified(Normalized(delivered, p))
  {
    var pub := Publish(files, description, gunReady, session, now, p).value;
    var fm := FilesMapOf(files);
    var canonical := WriteCanonical(files, description);
    var desc := if description != "" then description else "";
    assert pub.id == DeriveAddress(p, canonical).value;
    assert pub.record.description == Some(desc);
    assert pub.record.files == Encoded(p.encodeFiles(AsJson(fm)));
    var delivered := pub.record.(meta := meta);
    var clean := Normalized(delivered, p);
    assert clean.files == JObject(AsJson(fm));
    JsonFilesReadBack(fm);
    assert ReadCanonical(clean.description, clean.files) == Success(canonical);
    assert RecomputeAddress(clean, p) == Success(pub.id);
  }

  /** Parsing the stored `files` back yields the very files that were hashed. */
  lemma JsonFilesReadBack(fm: Assoc<GistFile>)
    ensures MapAll(ReadFile, Values(AsJson(fm))) == Some(Values(fm))
  {
    var vs := Values(AsJson(fm));
    forall i | 0 <= i < |vs| ensures ReadFile(vs[i]) == Some(Values(fm)[i]) {
      assert vs[i] == StoredPair(fm[i]).1;
    }
    assert MapAll(ReadFile, vs).Some?;
    assert MapAll(ReadFile, vs).value == Values(fm);
  }
}
