/** The record model of use-gist.ts and its content addressing: the canonical form
    `{description, files}` built on the read path and on the write path, and the address derived
    from it. */
module Canon {
  import opened Wrappers
  import opened Text
  import opened Hex
  import opened Seqs
  import opened Sorting
  import opened Assoc

  /** `GistFile`: one file of a record, every field present. */
  datatype GistFile = GistFile(filename: string, content: string, language: string, size: int)

  /** A file as a delivery may carry it: `language` and `size` may be undefined. */
  datatype RawFile = RawFile(filename: string, content: string, language: Option<string>, size: Option<int>)

  /** One value of a delivered `files` object: a file, or `null`. */
  datatype Entry = FileValue(file: RawFile) | NullValue

  type FileObject = Assoc<Entry>

  /** What a `files` field holds once decoded: an object of files, or `null`. */
  datatype FilesJson = JObject(entries: FileObject) | JNull

  /** An entry of a user's list of records (use-gist.ts:150-155, read back at 189-200):
      `updatedAt` and `filename` may be undefined. */
  datatype IndexNode = IndexNode(
    id: Option<string>,
    description: string,
    createdAt: int,
    updatedAt: Option<int>,
    filename: Option<string>)

  /** The structure that is serialised and hashed. */
  datatype Canonical = Canonical(description: string, files: seq<GistFile>)

  /** The exceptions the address computation can throw. */
  datatype Fault =
    | ValuesOfNull    // Object.values(null)
    | NullFileEntry   // f.filename where f is null
    | DigestFailed    // crypto.subtle.digest rejects or is unavailable

  /** The library code the core calls but does not define.
      - serialize: JSON.stringify of a canonical structure, then TextEncoder.encode;
      - sha256: crypto.subtle.digest('SHA-256', ·), None when it throws;
      - encodeFiles, decodeFiles: JSON.stringify and JSON.parse of a `files` object, None when
        parsing throws. */
  datatype Primitives = Primitives(
    serialize: Canonical -> seq<byte>,
    sha256: seq<byte> -> Option<seq<byte>>,
    encodeFiles: FileObject -> string,
    decodeFiles: string -> Option<FilesJson>)
  {
    /** SHA-256 digests are 32 bytes, and parsing what was stringified gives it back. */
    ghost predicate Lawful()
    {
      && (forall b :: sha256(b).Some? ==> |sha256(b).value| == 32)
      && (forall o :: decodeFiles(encodeFiles(o)) == Some(JObject(o)))
    }
  }

  /** The comparator `a.filename.localeCompare(b.filename) < 0`. */
  predicate FileBefore(a: GistFile, b: GistFile)
  {
    Less(a.filename, b.filename)
  }

  lemma FileBeforeIsStrictOrder()
    ensures StrictOrder(FileBefore)
  {
    forall a: GistFile ensures !FileBefore(a, a) {
      LessIrreflexive(a.filename);
    }
    forall a: GistFile, b: GistFile, c: GistFile | FileBefore(a, b) && FileBefore(b, c)
      ensures FileBefore(a, c)
    {
      LessTransitive(a.filename, b.filename, c.filename);
    }
  }

  predicate DistinctFilenames(fs: seq<GistFile>)
  {
    forall i, j :: 0 <= i < j < |fs| ==> fs[i].filename != fs[j].filename
  }

  function SortByFilename(fs: seq<GistFile>): seq<GistFile>
  {
    Sort(fs, FileBefore)
  }

  /** Files are sorted by filename, and when no two share a filename the result does not
      depend on the order they came in. */
  lemma SortByFilenameCanonical(fs: seq<GistFile>, gs: seq<GistFile>)
    requires DistinctFilenames(fs) && multiset(fs) == multiset(gs)
    ensures SortByFilename(fs) == SortByFilename(gs)
    ensures forall i, j :: 0 <= i < j < |SortByFilename(fs)| ==>
      !Less(SortByFilename(fs)[j].filename, SortByFilename(fs)[i].filename)
  {
    FileBeforeIsStrictOrder();
    SortSorted(fs, FileBefore);
    assert Connected(fs, FileBefore) by {
      forall i, j | 0 <= i < |fs| && 0 <= j < |fs| && fs[i] != fs[j]
        ensures FileBefore(fs[i], fs[j]) || FileBefore(fs[j], fs[i])
      {
        assert i != j;
        LessTotal(fs[i].filename, fs[j].filename);
      }
    }
    SortForgetsOrder(fs, gs, FileBefore);
  }

  /** Read path, use-gist.ts:60-65: the projection of one delivered file, with `'text'` for
      an undefined language and 0 for an undefined size. */
  function ReadFile(e: Entry): Option<GistFile>
  {
    match e
    case NullValue => None
    case FileValue(f) =>
      Some(GistFile(
        f.filename,
        f.content,
        if f.language.Some? then f.language.value else "text",
        if f.size.Some? then f.size.value else 0))
  }

  /** Read path, use-gist.ts:70: an undefined or empty description is `''`. */
  function ReadDescription(d: Option<string>): string
  {
    if d.Some? && d.value != "" then d.value else ""
  }

  /** Read path, use-gist.ts:60-72: the canonical structure rebuilt from a delivery. */
  function ReadCanonical(description: Option<string>, files: FilesJson): Result<Canonical, Fault>
  {
    match files
    case JNull => Failure(ValuesOfNull)
    case JObject(o) =>
      match MapAll(ReadFile, Values(o))
      case None => Failure(NullFileEntry)
      case Some(fs) => Success(Canonical(ReadDescription(description), SortByFilename(fs)))
  }

  /** Write path, use-gist.ts:115-120: an empty language becomes `'text'`; the size expression
      `(f.size !== 0) ? f.size : 0` keeps the size. */
  function WriteFile(f: GistFile): (g: GistFile)
  {
    GistFile(f.filename, f.content, if f.language != "" then f.language else "text",
             if f.size != 0 then f.size else 0)
  }

  /** use-gist.ts:74-77 and 129-132: hash the serialised form, write the address. */
  function DeriveAddress(p: Primitives, c: Canonical): Result<string, Fault>
  {
    match p.sha256(p.serialize(c))
    case None => Failure(DigestFailed)
    case Some(d) => Success(AddressOf(d))
  }

  /** A derived address is 32 lowercase hex digits. */
  lemma DeriveAddressShape(p: Primitives, c: Canonical)
    requires p.Lawful()
    ensures DeriveAddress(p, c).Success? ==>
      |DeriveAddress(p, c).value| == AddressLength &&
      forall i :: 0 <= i < AddressLength ==> IsLowerHex(DeriveAddress(p, c).value[i])
  {
    var d := p.sha256(p.serialize(c));
    if d.Some? {
      AddressShape(d.value);
    }
  }

  /** Two canonical forms whose digests differ within the first 16 bytes get different
      addresses: the address is exactly as strong as 16 digest bytes. */
  lemma DeriveAddressSeparates(p: Primitives, c1: Canonical, c2: Canonical)
    requires p.Lawful()
    requires p.sha256(p.serialize(c1)).Some? && p.sha256(p.serialize(c2)).Some?
    ensures DeriveAddress(p, c1) == DeriveAddress(p, c2) <==>
      p.sha256(p.serialize(c1)).value[..16] == p.sha256(p.serialize(c2)).value[..16]
  {
    AddressInjective(p.sha256(p.serialize(c1)).value, p.sha256(p.serialize(c2)).value);
  }

  /** The read-path canonical form does not depend on the order of the delivered files, as
      long as no two of them share a filename. */
  lemma ReadCanonicalOrderFree(d: Option<string>, o1: FileObject, o2: FileObject)
    requires multiset(o1) == multiset(o2)
    requires forall i, j :: 0 <= i < j < |o1| && o1[i].1.FileValue? && o1[j].1.FileValue? ==>
      o1[i].1.file.filename != o1[j].1.file.filename
    ensures ReadCanonical(d, JObject(o1)) == ReadCanonical(d, JObject(o2))
  {
    ValuesPermutation(o1, o2);
    MapAllPermutation(ReadFile, Values(o1), Values(o2));
    var r1, r2 := MapAll(ReadFile, Values(o1)), MapAll(ReadFile, Values(o2));
    if r1.Some? {
      ReadFilesDistinct(o1);
      SortByFilenameCanonical(r1.value, r2.value);
    }
  }

  lemma ReadFilesDistinct(o: FileObject)
    requires MapAll(ReadFile, Values(o)).Some?
    requires forall i, j :: 0 <= i < j < |o| && o[i].1.FileValue? && o[j].1.FileValue? ==>
      o[i].1.file.filename != o[j].1.file.filename
    ensures DistinctFilenames(MapAll(ReadFile, Values(o)).value)
  {
    var r := MapAll(ReadFile, Values(o)).value;
    forall i, j | 0 <= i < j < |r| ensures r[i].filename != r[j].filename {
      assert ReadFile(Values(o)[i]) == Some(r[i]);
      assert ReadFile(Values(o)[j]) == Some(r[j]);
    }
  }

  /** A default left implicit reads the same as the default written out: undefined language
      and `'text'`, undefined size and 0, undefined and empty description. */
  lemma ReadDefaultsImplicit(o: FileObject, i: nat, d: Option<string>)
    requires i < |o| && o[i].1.FileValue?
    requires o[i].1.file.language.None? || o[i].1.file.size.None?
    ensures var f := o[i].1.file;
      var explicit := RawFile(f.filename, f.content, Some(f.language.GetOr("text")), Some(f.size.GetOr(0)));
      ReadCanonical(d, JObject(o)) == ReadCanonical(Some(ReadDescription(d)), JObject(o[i := (o[i].0, FileValue(explicit))]))
  {
    var f := o[i].1.file;
    var explicit := RawFile(f.filename, f.content, Some(f.language.GetOr("text")), Some(f.size.GetOr(0)));
    var o' := o[i := (o[i].0, FileValue(explicit))];
    var vs, vs' := Values(o), Values(o');
    forall k | 0 <= k < |vs| ensures ReadFile(vs[k]) == ReadFile(vs'[k]) {
      if k == i {
        assert vs'[k] == FileValue(explicit);
      } else {
        assert vs'[k] == vs[k];
      }
    }
    MapAllPointwise(ReadFile, vs, vs');
  }
}
