# Nancy request-data conversions, modelled in Dafny

This project models the layer of the Nancy web framework that lifts a host's
request data into Nancy's own collections:

- `CollectionExtensions` converts a `NameValueCollection` into a dictionary of
  value sequences (`ToDictionary`) and into a `DynamicDictionary`
  (`ToDynamicDictionary`). In the dynamic dictionary, a key with one value
  becomes a string, a key with several values becomes the array, and a key
  without values is dropped. It also converts a dictionary of sequences back
  into a `NameValueCollection` (`ToNameValueCollection`).
- `PostedFileCollection` is the read-only collection of uploaded files. It is
  keyed by file name and can be indexed by name and by position. `PostedFile`
  is the record for one upload.
- The ASP.NET host's `Convert` copies each host upload record into a
  `PostedFile` and builds a `PostedFileCollection` from the results.

Files:

- `wrappers.dfy`: `Option` stands for a null reference. `Result` stands for an
  operation that may throw.
- `collections.dfy`: stand-ins for the two mutable collections the conversions
  fill. `NameValueCollection` is a class holding an ordered list of entries with
  unique keys. Its `Add` appends a value to a key's list, or adds the key as a
  new last entry. `GetValues` gives `None` (null) for a key that is absent or
  has no values. `DynamicDictionary` is a class holding a map; it is reached
  only through its indexer setter.
- `collection_extensions.dfy`: `ToDictionary` is a function, because it is one
  LINQ expression in the source. `ToDynamicDictionary` and
  `ToNameValueCollection` are methods whose `foreach` loops fill a fresh object.
  They are proved against the specification function `Collected` and against
  the properties in their contracts. The round trips are lemmas.
- `posted_file.dfy`: `PostedFile` and `PostedFileCollection` are datatypes,
  because the collection is built once and never changed. The construction
  fault is a `Result`. The indexers' faults (unknown name, index out of range,
  no backing dictionary) are preconditions.
- `aspnet_extensions.dfy`: the two `Convert` overloads.

Assumptions:

- A `Dictionary` is taken to enumerate in insertion order. The library does
  this when nothing has been removed, and the multipart test relies on it.
  Both the dictionary of sequences and the posted-file collection are
  therefore ordered lists.
- An input stream is an object of an empty class. It is compared only by
  reference identity.

`Enumerable.ToDictionary` (src/Nancy/PostedFile.cs:14) throws on the first
repeated key, so there is no last-write-wins: `FromFiles` fails with
`DuplicateFileName`, naming the first name that repeats.

## Model

| member | source | states |
|---|---|---|
| `Collections.NameValueCollection.GetValues` | src/Nancy/Extensions/CollectionExtensions.cs:19-20 | GetValues is never an empty array; a result means the key is in AllKeys; in a valid collection it is the key's values, or None when the key has none |
| `Collections.NameValueCollection.AllKeys` | src/Nancy/Extensions/CollectionExtensions.cs:17 | AllKeys lists every entry's key, in entry order |
| `Collections.NameValueCollection.Add` | src/Nancy/Extensions/CollectionExtensions.cs:37 | Add keeps keys unique; afterwards GetValues(key) is the earlier values followed by the new value, and every other key is unchanged |
| `Collections.Added` | src/Nancy/Extensions/CollectionExtensions.cs:37 | Add keeps every existing entry's key in its position; a key not yet present becomes a new last entry holding just the value |
| `Collections.AddedValues` | src/Nancy/Extensions/CollectionExtensions.cs:37 | after Add, the key holds its old values plus the new one at the end; every other key holds what it held |
| `Collections.AddedUnique` | src/Nancy/Extensions/CollectionExtensions.cs:37 | Add never creates a second entry for a key |
| `Collections.AddedToLast` | src/Nancy/Extensions/CollectionExtensions.cs:35-38 | when the key's entry is the last one, Add extends that entry, so repeated Adds of one key's values build a single entry in value order |
| `Collections.RawValuesAppend` | src/Nancy/Extensions/CollectionExtensions.cs:33-38 | adding an entry for another key does not change what a key holds |
| `Collections.DynamicDictionary.Set` | src/Nancy/Extensions/CollectionExtensions.cs:22-24 | the indexer setter binds the key to the value and leaves every other key as it was |
| `Collections.NameValueCollection.constructor` | src/Nancy/Extensions/CollectionExtensions.cs:31 | a new collection is valid and holds no entries |
| `Collections.DynamicDictionary.constructor` | src/Nancy/Extensions/CollectionExtensions.cs:16 | a new dynamic dictionary holds no items |
| `CollectionExtensions.Lift` | src/Nancy/Extensions/CollectionExtensions.cs:21-24 | a value array is stored as a string exactly when it has one value, and then as that value; otherwise as the whole array, unchanged |
| `PostedFiles.PostedFileCollection.Enumerate` | src/Nancy/PostedFile.cs:18 | the enumerator yields the stored files in insertion order, and in a valid collection each name once |
| `CollectionExtensions.ToDictionary` | src/Nancy/Extensions/CollectionExtensions.cs:9-12 | the keys of the result are exactly AllKeys, in order, each once; each key maps to its GetValues result unchanged, null included |
| `CollectionExtensions.ToDynamicDictionary` | src/Nancy/Extensions/CollectionExtensions.cs:14-27 | the result has a key exactly when the key is in AllKeys and GetValues is not null; one value is stored as that string, two or more as the whole array in source order; the result is a new object and the source is not changed |
| `CollectionExtensions.Collected` | src/Nancy/Extensions/CollectionExtensions.cs:29-42 | the collection built from a dictionary has exactly the keys whose sequences are non-empty, each once when the dictionary's keys are distinct |
| `CollectionExtensions.ToNameValueCollection` | src/Nancy/Extensions/CollectionExtensions.cs:29-42 | the nested loops of Add calls build exactly `Collected(source)`: one entry per key with a non-empty sequence, holding that sequence, in dictionary order; the result is a new, valid collection |
| `CollectionExtensions.CollectedGetValues` | src/Nancy/Extensions/CollectionExtensions.cs:33-39 | after the conversion, GetValues(key) is the key's sequence when it is non-empty, and null when it is empty because Add was never called |
| `CollectionExtensions.CollectedAllNonEmpty` | src/Nancy/Extensions/CollectionExtensions.cs:33-39 | when no sequence is empty, every key appears, in order, with its whole sequence |
| `CollectionExtensions.CollectedStep` | src/Nancy/Extensions/CollectionExtensions.cs:33-39 | before a key's values are added, the collection is valid and lacks that key; afterwards it has gained only that key's entry, or nothing for an empty sequence |
| `CollectionExtensions.AddStep` | src/Nancy/Extensions/CollectionExtensions.cs:35-38 | each Add of the inner loop creates the key's entry on the first value and extends it with the later ones |
| `CollectionExtensions.RoundTrip` | src/Nancy/Extensions/CollectionExtensions.cs:9-42 | ToDictionary(ToNameValueCollection(d)) equals d when d's keys are distinct and every sequence is non-empty |
| `CollectionExtensions.RoundTripBack` | src/Nancy/Extensions/CollectionExtensions.cs:9-42 | ToNameValueCollection(ToDictionary(c)) rebuilds c's entries when every key of c has values |
| `PostedFiles.FromFiles` | src/Nancy/PostedFile.cs:14 | construction succeeds exactly when all file names are distinct, and the collection then enumerates the input files, one per input, in input order; on failure the reported name belongs to two inputs (no overwriting) |
| `PostedFiles.Unbacked` | src/Nancy/PostedFile.cs:13 | the parameterless constructor leaves no backing dictionary, which every indexer's precondition excludes |
| `PostedFiles.PostedFileCollection.ByName` | src/Nancy/PostedFile.cs:16 | this[name] returns a file of the collection whose FileName is name; an absent name or a missing dictionary is excluded as the fault it is |
| `PostedFiles.PostedFileCollection.At` | src/Nancy/PostedFile.cs:17 | this[i] is the i-th enumerated file, and looking up its name returns that same file; an index outside 0..count-1 is excluded as the fault it is |
| `PostedFiles.Find` | src/Nancy/PostedFile.cs:16 | the dictionary lookup by name finds a file of the list carrying that name |
| `PostedFiles.NameIdentifiesFile` | src/Nancy/PostedFile.cs:14-16 | with distinct names, looking up a file's name returns that file |
| `PostedFiles.FromFilesLookup` | src/Nancy/PostedFile.cs:14-17 | after construction from files with distinct names, this[files[i].FileName] and this[i] both return files[i] |
| `AspnetExtensions.ConvertFile` | src/Nancy.Hosting.Aspnet/AspnetExtensions.cs:14-23 | ContentLength, ContentType and FileName are copied verbatim, and the same InputStream object is handed on |
| `AspnetExtensions.ConvertFiles` | src/Nancy.Hosting.Aspnet/AspnetExtensions.cs:8-12 | conversion succeeds exactly when the host file names are distinct; the collection then has one entry per host file, the i-th being Convert of the i-th host file; a repeated name makes the whole conversion fail |
| `AspnetExtensions.ConvertedNamesInOrder` | src/Nancy.Hosting.Aspnet/AspnetExtensions.cs:10-11 | the converted file names are the host file names in host enumeration order |
| `AspnetExtensions.ConvertedByName` | src/Nancy.Hosting.Aspnet/AspnetExtensions.cs:10-11 | looking a converted file up by a host file's name gives Convert of that host file |

## Left out

- Basic authentication, the before and after hook pipelines, and NancyHandler's request and response adaptation (method override, header copying, cookie emission): their implementations are not part of this model.
- Key comparison in NameValueCollection: the library compares keys case-insensitively by default, and the model compares them exactly. For `ToDictionary` and `ToDynamicDictionary` the two agree whenever the stored keys are distinct under case folding, because those conversions only look up keys taken from AllKeys. A lookup with a differently-cased spelling differs: with the single entry "Name" = ["Chris"], the library's GetValues("name") gives ["Chris"] and the model's gives None.
- CollectionExtensions.ToNameValueCollection: the keys passed to Add come from an arbitrary dictionary, whose comparer may tell apart keys that differ only in case. The library's collection merges such keys: {"Name": ["a"], "name": ["b"]} becomes one entry "Name" = ["a", "b"], while the model keeps two entries. `ToNameValueCollection`, `CollectedGetValues`, `RoundTrip` and `RoundTripBack` therefore describe the library only when the dictionary's keys are distinct under case folding.
- Null keys, and null values passed to Add: the model's keys and values are strings. A key whose only values were null is still modelled, as an entry with an empty list, for which GetValues gives null.
- `CollectionExtensions.ToNameValueCollection`: a null sequence in the dictionary makes the inner `foreach` throw after part of the collection is filled. The model excludes this with the precondition `NoNullSequences` and does not model the partly filled result.
- DynamicDictionary's property-style access (`Form.Name`) and the wrapping of its values: these are runtime dynamic dispatch in a class not part of this model. Only the indexer setter is modelled.
- Stream contents: streams are opaque objects, and only their identity is modelled.
- Null file names: Enumerable.ToDictionary throws ArgumentNullException for a null FileName. File names in the model are never null.
- Other null arguments: a null `files` sequence passed to the PostedFileCollection constructor (ArgumentNullException from Enumerable.ToDictionary, src/Nancy/PostedFile.cs:14), a null element in it (NullReferenceException at `x.FileName`), and a null host file given to Convert (NullReferenceException at `file.ContentLength`, src/Nancy.Hosting.Aspnet/AspnetExtensions.cs:18). The model's sequences and records are never null, so these faults are not modelled.
- PostedFile is a mutable class in the source, with public setters. The model makes it an immutable record, so aliasing between a collection's files and other references is not modelled.
- HttpFileCollectionBase enumeration: the model takes the host collection as the sequence of its file objects in enumeration order, as the test's fake supplies it (src/Nancy.Hosting.Aspnet.Tests/NancyHandlerFixture.cs:160). The framework's HttpFileCollection is a NameObjectCollectionBase whose enumerator yields the keys (strings), not the files, so with a real host `files.Cast<HttpPostedFileBase>()` (src/Nancy.Hosting.Aspnet/AspnetExtensions.cs:10) would throw InvalidCastException; the model does not capture this. The real host class is not part of this model.

