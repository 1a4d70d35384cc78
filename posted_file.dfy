/**
 * Nancy's uploaded files: the PostedFile record and the read-only
 * PostedFileCollection keyed by file name (Nancy/PostedFile.cs).
 */
module PostedFiles {
  import opened Wrappers

  /** .NET's 32-bit int, the type of ContentLength. */
  newtype int32 = x: int | -0x8000_0000 <= x < 0x8000_0000

  /** The content stream of an upload: an opaque object known only by its identity. */
  class Stream { }

  /** PostedFile: the four properties of an uploaded file. */
  datatype PostedFile = PostedFile(contentLength: int32, contentType: string, fileName: string, inputStream: Stream)

  /** The ArgumentException that Enumerable.ToDictionary throws on a repeated key. */
  datatype Fault = DuplicateFileName(name: string)

  function Names(files: seq<PostedFile>): seq<string>
  {
    seq(|files|, i requires 0 <= i < |files| => files[i].fileName)
  }

  ghost predicate DistinctNames(files: seq<PostedFile>)
  {
    forall i, j :: 0 <= i < j < |files| ==> files[i].fileName != files[j].fileName
  }

  /**
   * PostedFileCollection. The dictionary it wraps is enumerated in the order
   * the files were added, so it is kept as that ordered list; None is the
   * missing dictionary of a collection made by the parameterless constructor.
   * The field is set once, by a constructor, and nothing changes it later.
   */
  datatype PostedFileCollection = PostedFileCollection(files: Option<seq<PostedFile>>)
  {
    ghost predicate Valid()
    {
      files.Some? ==> DistinctNames(files.value)
    }

    /** The indexer this[name]: the file called name. A missing name throws
        KeyNotFoundException and a missing dictionary NullReferenceException,
        so both are excluded. */
    function ByName(name: string): (f: PostedFile)
      requires Valid() && files.Some? && name in Names(files.value)
      ensures f in files.value && f.fileName == name
    {
      Find(files.value, name)
    }

    /** The indexer this[index]: the index-th file enumerated. An index outside
        0 <= index < count throws ArgumentOutOfRangeException, so it is excluded. */
    function At(index: int): (f: PostedFile)
      requires Valid() && files.Some? && 0 <= index < |files.value|
      ensures f == Enumerate()[index]
      ensures f.fileName in Names(files.value) && ByName(f.fileName) == f
    {
      NameIdentifiesFile(files.value, index);
      files.value[index]
    }

    /** GetEnumerator: the files, each once, in the order they were added. */
    function Enumerate(): (fs: seq<PostedFile>)
      requires files.Some?
      ensures fs == files.value
      ensures Valid() ==> DistinctNames(fs)
    {
      files.value
    }
  }

  /** The first file in files called name. */
  function Find(files: seq<PostedFile>, name: string): (f: PostedFile)
    requires name in Names(files)
    ensures f in files && f.fileName == name
  {
    if files[0].fileName == name then files[0]
    else
      assert Names(files) == [files[0].fileName] + Names(files[1..]);
      Find(files[1..], name)
  }

  /** With distinct names, the file found by its name is the file itself. */
  lemma NameIdentifiesFile(files: seq<PostedFile>, i: nat)
    requires DistinctNames(files) && i < |files|
    ensures files[i].fileName in Names(files)
    ensures Find(files, files[i].fileName) == files[i]
  {
    assert Names(files)[i] == files[i].fileName;
    var f := Find(files, files[i].fileName);
    var j :| 0 <= j < |files| && files[j] == f;
    assert files[j].fileName == files[i].fileName;
  }

  /** The parameterless constructor: a collection without a dictionary. */
  function Unbacked(): (c: PostedFileCollection)
    ensures c.Valid() && c.files.None?
  {
    PostedFileCollection(None)
  }

  /**
   * The constructor PostedFileCollection(files): the files are added to a
   * dictionary keyed by FileName one after another, and the first file whose
   * name is already there makes it throw. There is no overwriting.
   */
  function FromFiles(files: seq<PostedFile>): (r: Result<PostedFileCollection, Fault>)
    ensures r.Success? <==> DistinctNames(files)
    ensures r.Success? ==> r.value.Valid() && r.value.files == Some(files)
    ensures r.Failure? ==>
      (exists i, j :: 0 <= i < j < |files| && files[i].fileName == r.error.name && files[j].fileName == r.error.name)
  {
    if files == [] then Success(PostedFileCollection(Some([])))
    else
      var init := files[..|files| - 1];
      var last := files[|files| - 1];
      assert forall i :: 0 <= i < |init| ==> init[i] == files[i];
      match FromFiles(init)
      case Failure(e) => Failure(e)
      case Success(_) =>
        if last.fileName in Names(init) then
          Failure(DuplicateFileName(last.fileName))
        else
          assert forall i :: 0 <= i < |init| ==> Names(init)[i] == files[i].fileName;
          Success(PostedFileCollection(Some(files)))
  }

  /** In a successfully built collection, each input file is found by its name
      and by its position. */
  lemma FromFilesLookup(files: seq<PostedFile>, i: nat)
    requires DistinctNames(files) && i < |files|
    ensures FromFiles(files).Success?
    ensures files[i].fileName in Names(files)
    ensures FromFiles(files).value.ByName(files[i].fileName) == files[i]
    ensures FromFiles(files).value.At(i) == files[i]
  {
    NameIdentifiesFile(files, i);
  }
}
