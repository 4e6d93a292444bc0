/** The `ImageUploader` component: the file checks, the compression step, the
    previews and the two lists it keeps. Image decoding, canvas compression and
    `FileReader` are functions passed in: `decodes` says whether the browser
    decodes a file as an image (fires `onload`), `blob` gives the size of the
    JPEG blob `toBlob` makes for a file, or `None` when it gives null, and
    `dataUrl` the data URL read for a file, or `None` when the read fails. The
    calls of `onImageUpload` are recorded in order. */
module ImageUploader {

  datatype Option<T> = None | Some(value: T)

  /** A `File`: its name, its MIME type and its size in bytes. */
  datatype File = File(name: string, mimeType: string, size: nat)

  /** 10 MB. */
  const MaxBytes: nat := 10 * 1024 * 1024

  /** The checks of `handleFiles`: an image type and at most 10 MB. */
  predicate Accepted(f: File) {
    |f.mimeType| >= 6 && f.mimeType[..6] == "image/" && f.size <= MaxBytes
  }

  // ---------------------------------------------------------------------------
  // The file checks

  /** The accepted files, in input order. */
  function KeepValid(xs: seq<File>): (r: seq<File>)
    ensures |r| <= |xs|
    ensures forall f :: f in r <==> f in xs && Accepted(f)
  {
    if xs == [] then []
    else
      var last := xs[|xs| - 1];
      var front := xs[..|xs| - 1];
      assert xs == front + [last];
      KeepValid(front) + (if Accepted(last) then [last] else [])
  }

  /** The filter works file by file: order is kept across any split of the input. */
  lemma {:induction false} KeepValidAppend(a: seq<File>, b: seq<File>)
    ensures KeepValid(a + b) == KeepValid(a) + KeepValid(b)
    decreases |b|
  {
    if b == [] {
      assert a + b == a;
    } else {
      var front := b[..|b| - 1];
      assert (a + b)[..|a + b| - 1] == a + front;
      assert (a + b)[|a + b| - 1] == b[|b| - 1];
      KeepValidAppend(a, front);
    }
  }

  /** The first loop of `handleFiles`. */
  method FilterValid(newFiles: seq<File>) returns (validFiles: seq<File>)
    ensures validFiles == KeepValid(newFiles)
  {
    validFiles := [];
    for i := 0 to |newFiles|
      invariant validFiles == KeepValid(newFiles[..i])
    {
      assert newFiles[..i + 1][..i] == newFiles[..i];
      if |newFiles[i].mimeType| < 6 || newFiles[i].mimeType[..6] != "image/" {
        continue;
      }
      if newFiles[i].size > MaxBytes {
        continue;
      }
      validFiles := validFiles + [newFiles[i]];
    }
    assert newFiles[..|newFiles|] == newFiles;
  }

  // ---------------------------------------------------------------------------
  // Compression and previews

  /** `compressImage(file)`: the JPEG blob under the same name, or the original
      file when `toBlob` gives null. */
  function Compress(f: File, blob: Option<nat>): (g: File)
    ensures g.name == f.name
    ensures blob.None? ==> g == f
    ensures blob.Some? ==> g.mimeType == "image/jpeg" && g.size == blob.value
  {
    if blob.Some? then File(f.name, "image/jpeg", blob.value) else f
  }

  /** The second loop of `handleFiles`: one compressed file per valid file, one
      `await` at a time. `compressImage` resolves only from the image's `onload`,
      so at the first file that does not decode the loop waits forever
      (`None`): nothing after it runs. */
  method CompressAll(validFiles: seq<File>, decodes: File -> bool, blob: File -> Option<nat>)
    returns (compressedFiles: Option<seq<File>>)
    ensures compressedFiles.Some? <==> forall i :: 0 <= i < |validFiles| ==> decodes(validFiles[i])
    ensures compressedFiles.Some? ==>
      && |compressedFiles.value| == |validFiles|
      && forall i :: 0 <= i < |validFiles| ==>
           compressedFiles.value[i] == Compress(validFiles[i], blob(validFiles[i]))
  {
    var done: seq<File> := [];
    for i := 0 to |validFiles|
      invariant |done| == i
      invariant forall k :: 0 <= k < i ==> decodes(validFiles[k])
      invariant forall k :: 0 <= k < i ==> done[k] == Compress(validFiles[k], blob(validFiles[k]))
    {
      if !decodes(validFiles[i]) {
        return None;
      }
      var compressed := Compress(validFiles[i], blob(validFiles[i]));
      done := done + [compressed];
    }
    return Some(done);
  }

  /** The readers of `handleFiles`: the reads end in the order `order`, and
      each successful one stores its data URL at its own file's index and counts
      itself. A failed read has no handler, so the count reaches the number of
      files (`complete`) exactly when every read succeeds, and then the previews
      line up with the files whatever that order is. */
  method ReadPreviews(compressedFiles: seq<File>, dataUrl: File -> Option<string>, order: seq<nat>)
    returns (complete: bool, tempPreviews: seq<string>)
    requires |order| == |compressedFiles|
    requires forall k :: 0 <= k < |order| ==> order[k] < |order|
    requires forall i :: 0 <= i < |order| ==> i in order
    ensures complete <==> forall i :: 0 <= i < |compressedFiles| ==> dataUrl(compressedFiles[i]).Some?
    ensures complete ==>
      && |tempPreviews| == |compressedFiles|
      && forall i :: 0 <= i < |compressedFiles| ==> Some(tempPreviews[i]) == dataUrl(compressedFiles[i])
  {
    var slots := new string[|compressedFiles|](_ => "");
    var processedCount := 0;
    for k := 0 to |order|
      invariant 0 <= processedCount <= k
      invariant processedCount == k <==> forall j :: 0 <= j < k ==> dataUrl(compressedFiles[order[j]]).Some?
      invariant forall j :: 0 <= j < k && dataUrl(compressedFiles[order[j]]).Some? ==>
                  Some(slots[order[j]]) == dataUrl(compressedFiles[order[j]])
    {
      var index := order[k];
      var read := dataUrl(compressedFiles[index]);
      if read.Some? {
        slots[index] := read.value;
        processedCount := processedCount + 1;
      }
    }
    complete := processedCount == |compressedFiles|;
    tempPreviews := slots[..];
    if complete {
      forall i | 0 <= i < |compressedFiles|
        ensures dataUrl(compressedFiles[i]).Some? && Some(tempPreviews[i]) == dataUrl(compressedFiles[i])
      {
        assert i in order;
        var k :| 0 <= k < |order| && order[k] == i;
      }
    } else {
      var j :| 0 <= j < |order| && !dataUrl(compressedFiles[order[j]]).Some?;
      assert order[j] < |compressedFiles|;
    }
  }

  /** A call of `handleFiles` on the accepted files `valid` reaches its
      callback: some file is accepted, every one decodes, and every compressed
      file reads. */
  ghost predicate Uploads(valid: seq<File>, decodes: File -> bool, blob: File -> Option<nat>,
                          dataUrl: File -> Option<string>) {
    && valid != []
    && (forall i :: 0 <= i < |valid| ==> decodes(valid[i]))
    && (forall i :: 0 <= i < |valid| ==> dataUrl(Compress(valid[i], blob(valid[i]))).Some?)
  }

  // ---------------------------------------------------------------------------
  // Removing one image

  /** `list.filter((_, i) => i !== index)`. */
  function Without<T>(s: seq<T>, index: int): (r: seq<T>)
    ensures 0 <= index < |s| ==> |r| == |s| - 1
    ensures !(0 <= index < |s|) ==> r == s
    ensures 0 <= index < |s| ==> forall i :: 0 <= i < |r| ==> r[i] == s[if i < index then i else i + 1]
    ensures 0 <= index < |s| ==> multiset(r) + multiset{s[index]} == multiset(s)
  {
    if 0 <= index < |s| then
      assert s == s[..index] + [s[index]] + s[index + 1..];
      s[..index] + s[index + 1..]
    else s
  }

  // ---------------------------------------------------------------------------
  // The component

  class Uploader {
    var files: seq<File>
    var previews: seq<string>
    /** The arguments of every `onImageUpload` call so far. */
    var uploads: seq<(seq<File>, seq<string>)>

    /** `files` and `previews` have the same length. */
    predicate Aligned()
      reads this
    {
      |files| == |previews|
    }

    constructor()
      ensures files == [] && previews == [] && uploads == []
      ensures Aligned()
    {
      files, previews, uploads := [], [], [];
    }

    /** `handleFiles(newFiles)`: nothing happens unless some file is accepted,
        every accepted file decodes and every read succeeds; otherwise the
        compressed files and their previews are appended and reported together. */
    method HandleFiles(newFiles: seq<File>, decodes: File -> bool, blob: File -> Option<nat>,
                       dataUrl: File -> Option<string>, order: seq<nat>)
      requires |order| == |KeepValid(newFiles)|
      requires forall k :: 0 <= k < |order| ==> order[k] < |order|
      requires forall i :: 0 <= i < |order| ==> i in order
      modifies this
      ensures !Uploads(KeepValid(newFiles), decodes, blob, dataUrl) ==>
        files == old(files) && previews == old(previews) && uploads == old(uploads)
      ensures Uploads(KeepValid(newFiles), decodes, blob, dataUrl) ==>
        var valid := KeepValid(newFiles);
        && |files| == |old(files)| + |valid| && |previews| == |old(previews)| + |valid|
        && files[..|old(files)|] == old(files) && previews[..|old(previews)|] == old(previews)
        && (forall i :: 0 <= i < |valid| ==>
              files[|old(files)| + i] == Compress(valid[i], blob(valid[i]))
              && Some(previews[|old(previews)| + i]) == dataUrl(files[|old(files)| + i]))
        && uploads == old(uploads) + [(files, previews)]
      ensures old(Aligned()) ==> Aligned()
    {
      var validFiles := FilterValid(newFiles);
      if |validFiles| == 0 {
        return;
      }
      var compressed := CompressAll(validFiles, decodes, blob);
      if compressed.None? {
        return;
      }
      var compressedFiles := compressed.value;
      var complete, tempPreviews := ReadPreviews(compressedFiles, dataUrl, order);
      if !complete {
        return;
      }
      var allFiles := files + compressedFiles;
      var allPreviews := previews + tempPreviews;
      files, previews := allFiles, allPreviews;
      uploads := uploads + [(allFiles, allPreviews)];
    }

    /** The remove button of the preview at `index`. */
    method Remove(index: int)
      modifies this
      ensures files == Without(old(files), index) && previews == Without(old(previews), index)
      ensures uploads == old(uploads) + [(files, previews)]
      ensures old(Aligned()) ==> Aligned()
    {
      var newFiles := Without(files, index);
      var newPreviews := Without(previews, index);
      files, previews := newFiles, newPreviews;
      uploads := uploads + [(newFiles, newPreviews)];
    }

    /** The clear-all button. */
    method ClearAll()
      modifies this
      ensures files == [] && previews == [] && Aligned()
      ensures uploads == old(uploads) + [([], [])]
    {
      files, previews := [], [];
      uploads := uploads + [([], [])];
    }
  }
}
