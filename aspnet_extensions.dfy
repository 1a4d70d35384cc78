/**
 * The ASP.NET host adapter's conversion of uploaded files into Nancy's
 * posted-file collection (Nancy.Hosting.Aspnet.AspnetExtensions).
 */
module AspnetExtensions {
  import opened Wrappers
  import opened PostedFiles

  /** HttpPostedFileBase: the host's view of one uploaded file. */
  datatype HttpPostedFile = HttpPostedFile(contentLength: int32, contentType: string, fileName: string, inputStream: Stream)

  /** Convert(file): a PostedFile with the host file's four properties; the
      stream object is handed on, not copied. */
  function ConvertFile(file: HttpPostedFile): (f: PostedFile)
    ensures f.contentLength == file.contentLength
    ensures f.contentType == file.contentType
    ensures f.fileName == file.fileName
    ensures f.inputStream == file.inputStream
  {
    PostedFile(file.contentLength, file.contentType, file.fileName, file.inputStream)
  }

  /** The host file collection, in its enumeration order. */
  type HttpFileCollection = seq<HttpPostedFile>

  ghost predicate DistinctHostNames(files: HttpFileCollection)
  {
    forall i, j :: 0 <= i < j < |files| ==> files[i].fileName != files[j].fileName
  }

  /** Convert(files): each host file converted, in order, handed to the
      PostedFileCollection constructor; a repeated name makes it throw. */
  function ConvertFiles(files: HttpFileCollection): (r: Result<PostedFileCollection, Fault>)
    ensures r.Success? <==> DistinctHostNames(files)
    ensures r.Success? ==> r.value.Valid() && r.value.files.Some?
    ensures r.Success? ==> |r.value.Enumerate()| == |files|
    ensures r.Success? ==> forall i :: 0 <= i < |files| ==> r.value.Enumerate()[i] == ConvertFile(files[i])
    ensures r.Failure? ==>
      (exists i, j :: 0 <= i < j < |files| && files[i].fileName == r.error.name && files[j].fileName == r.error.name)
  {
    var converted := seq(|files|, i requires 0 <= i < |files| => ConvertFile(files[i]));
    assert forall i :: 0 <= i < |files| ==> converted[i].fileName == files[i].fileName;
    FromFiles(converted)
  }

  /** The converted collection lists the host files' names in the host's order. */
  lemma ConvertedNamesInOrder(files: HttpFileCollection)
    requires DistinctHostNames(files)
    ensures ConvertFiles(files).Success?
    ensures Names(ConvertFiles(files).value.Enumerate()) == seq(|files|, i requires 0 <= i < |files| => files[i].fileName)
  {
  }

  /** Looking a converted file up by a host file's name gives that host file, converted. */
  lemma ConvertedByName(files: HttpFileCollection, i: nat)
    requires DistinctHostNames(files) && i < |files|
    ensures ConvertFiles(files).Success?
    ensures files[i].fileName in Names(ConvertFiles(files).value.Enumerate())
    ensures ConvertFiles(files).value.ByName(files[i].fileName) == ConvertFile(files[i])
  {
    var c := ConvertFiles(files).value;
    var fs := c.Enumerate();
    NameIdentifiesFile(fs, i);
  }
}
