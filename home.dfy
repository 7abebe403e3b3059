/** The new-gist form of pages/home.tsx: a list of file drafts edited in place, and the submit
    handler that filters out the blank drafts and hands the rest to `createGist`. */
module Home {
  import opened Wrappers
  import opened Text
  import opened Hex
  import opened Seqs
  import opened Canon
  import Publish

  /** The draft a new form row starts with (home.tsx:13 and 17). */
  const BlankFile := GistFile("", "", "javascript", 0)

  /** `f.filename.trim() !== '' && f.content.trim() !== ''`. */
  predicate IsValidFile(f: GistFile)
  {
    Trim(f.filename) != "" && Trim(f.content) != ""
  }

  /** `files.filter(IsValidFile)`. */
  function ValidFiles(files: seq<GistFile>): (r: seq<GistFile>)
    ensures |r| <= |files|
    ensures forall i :: 0 <= i < |r| ==> IsValidFile(r[i])
  {
    Filter(IsValidFile, files)
  }

  /** A draft is submitted exactly when it is in the form and passes the check. */
  lemma ValidFilesMember(files: seq<GistFile>, f: GistFile)
    ensures f in ValidFiles(files) <==> f in files && IsValidFile(f)
  {
    FilterMember(IsValidFile, files, f);
  }

  /** The filter keeps the drafts' order: it distributes over concatenation. */
  lemma ValidFilesConcat(a: seq<GistFile>, b: seq<GistFile>)
    ensures ValidFiles(a + b) == ValidFiles(a) + ValidFiles(b)
  {
    FilterConcat(IsValidFile, a, b);
  }

  /** Nothing is submitted exactly when every draft has a blank name or blank content. */
  lemma ValidFilesEmpty(files: seq<GistFile>)
    ensures ValidFiles(files) == [] <==> forall i :: 0 <= i < |files| ==> !IsValidFile(files[i])
  {
    FilterEmpty(IsValidFile, files);
  }

  /** `files.filter((_, i) => i !== index)`, walking the list with the position `at` of its head. */
  function KeepOthers(files: seq<GistFile>, index: int, at: int): seq<GistFile>
    decreases |files|
  {
    if files == [] then []
    else (if at != index then [files[0]] else []) + KeepOthers(files[1..], index, at + 1)
  }

  /** The filter drops the draft at `index` when there is one, and nothing otherwise. */
  lemma {:induction false} KeepOthersDrops(files: seq<GistFile>, index: int, at: int)
    ensures KeepOthers(files, index, at) ==
      if at <= index < at + |files| then files[..index - at] + files[index - at + 1..] else files
  {
    if files != [] {
      KeepOthersDrops(files[1..], index, at + 1);
      if at == index {
        assert files[..0] == [];
      } else if at < index < at + |files| {
        assert files[..index - at] == [files[0]] + files[1..][..index - at - 1];
        assert files[index - at + 1..] == files[1..][index - at..];
      } else {
        assert files == [files[0]] + files[1..];
      }
    }
  }

  /** What `handleSubmit` ends in. */
  datatype SubmitOutcome =
    | NeedFile                          // the alert asking for a file with a name and content
    | CreateFailed(error: Publish.CreateError) // the alert "Failed to create gist"
    | Navigated(path: string)             // navigate(`/${id}`)

  /** The outcome `handleSubmit` reaches for a form, as a function of the form and the world. */
  function SubmitResult(files: seq<GistFile>, description: string, gunReady: bool,
                        session: Option<string>, now: int, p: Primitives): SubmitOutcome
  {
    var valid := ValidFiles(files);
    if valid == [] then NeedFile
    else match Publish.Publish(valid, description, gunReady, session, now, p)
      case Failure(e) => CreateFailed(e)
      case Success(pub) => Navigated("/" + pub.id)
  }

  /** Submitting publishes only drafts that passed the check, every one of them, in form order,
      and on success goes to the page of the address those drafts hash to. */
  lemma SubmitPublishesValidDrafts(files: seq<GistFile>, description: string, gunReady: bool,
                                   session: Option<string>, now: int, p: Primitives)
    requires p.Lawful()
    requires SubmitResult(files, description, gunReady, session, now, p).Navigated?
    ensures var path := SubmitResult(files, description, gunReady, session, now, p).path;
      && |path| == 1 + AddressLength && path[0] == '/'
      && (forall i :: 1 <= i < |path| ==> IsLowerHex(path[i]))
      && path[1..] == Publish.Publish(ValidFiles(files), description, gunReady, session, now, p).value.id
  {
    var valid := ValidFiles(files);
    Publish.PublishedAddressShape(valid, description, gunReady, session, now, p);
    var id := Publish.Publish(valid, description, gunReady, session, now, p).value.id;
    assert ("/" + id)[1..] == id;
  }

  /** Blank drafts never change what is submitted, so adding rows is harmless. */
  lemma BlankRowsIgnored(files: seq<GistFile>)
    ensures ValidFiles(files + [BlankFile]) == ValidFiles(files)
  {
    ValidFilesConcat(files, [BlankFile]);
    assert [BlankFile][1..] == [];
  }

  /** The form as first shown cannot be submitted. */
  lemma FreshFormNeedsFile(description: string, gunReady: bool, session: Option<string>,
                           now: int, p: Primitives)
    ensures SubmitResult([BlankFile], description, gunReady, session, now, p) == NeedFile
  {
    assert [BlankFile][1..] == [];
  }

  /** The component's state. */
  class HomePage {
    var description: string
    var files: seq<GistFile>

    /** The form always shows at least one row: it starts with one and removal stops at one. */
    ghost predicate Valid()
      reads this
    {
      |files| >= 1
    }

    constructor()
      ensures Valid() && files == [BlankFile] && description == ""
    {
      description := "";
      files := [BlankFile];
    }

    /** `handleAddFile`. */
    method AddFile()
      requires Valid()
      modifies this
      ensures Valid() && files == old(files) + [BlankFile] && description == old(description)
    {
      files := files + [BlankFile];
    }

    /** `handleFileChange`: copy the rows, overwrite row `index`, store the copy. */
    method FileChange(index: nat, updated: GistFile)
      requires Valid() && index < |files|
      modifies this
      ensures Valid() && files == old(files)[index := updated] && description == old(description)
    {
      var current := files;
      var newFiles := new GistFile[|current|](i requires 0 <= i < |current| => current[i]);
      newFiles[index] := updated;
      files := newFiles[..];
    }

    /** `handleRemoveFile`: the last row is never removed; an index with no row removes nothing. */
    method RemoveFile(index: int)
      requires Valid()
      modifies this
      ensures Valid() && description == old(description)
      ensures |old(files)| == 1 ==> files == old(files)
      ensures |old(files)| > 1 && 0 <= index < |old(files)| ==>
        files == old(files)[..index] + old(files)[index + 1..]
      ensures |old(files)| > 1 && !(0 <= index < |old(files)|) ==> files == old(files)
    {
      if |files| == 1 {
        return;
      }
      KeepOthersDrops(files, index, 0);
      files := KeepOthers(files, index, 0);
    }

    /** `setDescription` from the description input. */
    method SetDescription(text: string)
      requires Valid()
      modifies this
      ensures Valid() && description == text && files == old(files)
    {
      description := text;
    }

    /** `handleSubmit`: the filter, the guard, then `createGist` and navigation or the alert. */
    method Submit(gunReady: bool, session: Option<string>, now: int, p: Primitives)
      returns (outcome: SubmitOutcome)
      ensures outcome == NeedFile <==> forall i :: 0 <= i < |files| ==> !IsValidFile(files[i])
      ensures outcome == SubmitResult(files, description, gunReady, session, now, p)
    {
      ValidFilesEmpty(files);
      var validFiles := ValidFiles(files);
      if |validFiles| == 0 {
        return NeedFile;
      }
      var r := Publish.CreateGist(validFiles, description, gunReady, session, now, p);
      match r {
        case Failure(e) => outcome := CreateFailed(e);
        case Success(pub) => outcome := Navigated("/" + pub.id);
      }
    }
  }
}
