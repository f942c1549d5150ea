/** `atomic_write_png` of import_check.cpp over a file system modelled as a
    map from paths to contents. The PNG encoder and the `rename` system call
    are collaborators: their outcome is passed in. The destination is removed
    before the rename, so the replacement is not atomic. */
module AtomicWrite {
  import opened Wrappers

  type Bytes = seq<bv8>

  /** What `cairo_surface_write_to_png` does to the temporary path: it either
      writes the encoded image, or fails, leaving the path untouched (the
      file could not be opened) or holding a partial file. */
  datatype PngWrite = Encoded(png: Bytes) | Failed(partial: Option<Bytes>)

  /** The files of a mutable file system. */
  class FileSystem {
    var files: map<string, Bytes>

    constructor (initial: map<string, Bytes>)
      ensures files == initial
    {
      files := initial;
    }

    /** The encoder writing (or failing to write) `path`. */
    method WritePng(path: string, w: PngWrite) returns (ok: bool)
      modifies this
      ensures ok == w.Encoded?
      ensures files == AfterWrite(old(files), path, w)
    {
      ok := w.Encoded?;
      match w
      case Encoded(png) =>
        files := files[path := png];
      case Failed(partial) =>
        if partial.Some? {
          files := files[path := partial.value];
        }
    }

    /** `std::remove`: the path is gone afterwards, whether or not it existed. */
    method Remove(path: string)
      modifies this
      ensures files == old(files) - {path}
    {
      files := files - {path};
    }

    /** `std::rename`: when the source exists and the system allows it, the
        contents move to the target (replacing it); otherwise nothing
        changes. */
    method Rename(from: string, to: string, allowed: bool) returns (ok: bool)
      modifies this
      ensures ok == (allowed && from in old(files))
      ensures files == AfterRename(old(files), from, to, allowed)
    {
      ok := allowed && from in files;
      if ok {
        files := (files - {from})[to := files[from]];
      }
    }
  }

  function AfterWrite(files: map<string, Bytes>, path: string, w: PngWrite): map<string, Bytes> {
    match w
    case Encoded(png) => files[path := png]
    case Failed(partial) => if partial.Some? then files[path := partial.value] else files
  }

  function AfterRename(files: map<string, Bytes>, from: string, to: string, allowed: bool): map<string, Bytes> {
    if allowed && from in files then (files - {from})[to := files[from]] else files
  }

  function TempPath(outpath: string): (tmp: string)
    ensures tmp != outpath
  {
    outpath + ".tmp"
  }

  /** The states of the file system after each of the three steps (write the
      temporary file, remove the destination, rename), as far as they run. */
  function Steps(files: map<string, Bytes>, outpath: string, w: PngWrite, renameAllowed: bool)
    : (states: seq<map<string, Bytes>>)
    ensures |states| == if w.Encoded? then 3 else 1
  {
    var tmp := TempPath(outpath);
    var written := AfterWrite(files, tmp, w);
    if !w.Encoded? then [written]
    else
      var removed := written - {outpath};
      [written, removed, AfterRename(removed, tmp, outpath, renameAllowed)]
  }

  /** The result of `atomic_write_png` and the final file system. */
  function AtomicWriteSpec(files: map<string, Bytes>, outpath: string, w: PngWrite, renameAllowed: bool)
    : (bool, map<string, Bytes>)
  {
    var states := Steps(files, outpath, w, renameAllowed);
    (w.Encoded? && renameAllowed, states[|states| - 1])
  }

  /** A failed encode returns false and leaves every path but the temporary
      one as it was; in particular the destination is untouched. */
  lemma EncodeFailureKeepsDestination(files: map<string, Bytes>, outpath: string, w: PngWrite, renameAllowed: bool)
    requires w.Failed?
    ensures var (ok, after) := AtomicWriteSpec(files, outpath, w, renameAllowed);
            !ok && (outpath in after <==> outpath in files) &&
            (outpath in files ==> after[outpath] == files[outpath]) &&
            forall p :: p != TempPath(outpath) ==> (p in after <==> p in files) && (p in files ==> after[p] == files[p])
  {
  }

  /** On success the destination holds the encoded image and the temporary
      path is gone. */
  lemma SuccessReplacesDestination(files: map<string, Bytes>, outpath: string, png: Bytes)
    ensures var (ok, after) := AtomicWriteSpec(files, outpath, Encoded(png), true);
            ok && outpath in after && after[outpath] == png && TempPath(outpath) !in after
  {
  }

  /** A failed rename leaves no destination at all, only the temporary file:
      the old contents are lost. */
  lemma RenameFailureLosesDestination(files: map<string, Bytes>, outpath: string, png: Bytes)
    ensures var (ok, after) := AtomicWriteSpec(files, outpath, Encoded(png), false);
            !ok && outpath !in after && TempPath(outpath) in after && after[TempPath(outpath)] == png
  {
  }

  /** Paths other than the destination and the temporary file never change. */
  lemma OtherPathsUntouched(files: map<string, Bytes>, outpath: string, w: PngWrite, renameAllowed: bool, p: string)
    requires p != outpath && p != TempPath(outpath)
    ensures var after := AtomicWriteSpec(files, outpath, w, renameAllowed).1;
            (p in after <==> p in files) && (p in files ==> after[p] == files[p])
  {
  }

  /** Not atomic: between the remove and the rename a reader finds no file at
      the destination, even when one existed before. */
  lemma DestinationMissingBetweenSteps(files: map<string, Bytes>, outpath: string, png: Bytes, renameAllowed: bool)
    ensures outpath !in Steps(files, outpath, Encoded(png), renameAllowed)[1]
  {
  }

  /** `atomic_write_png` run step by step on a file system. */
  method AtomicWritePng(fs: FileSystem, outpath: string, w: PngWrite, renameAllowed: bool) returns (ok: bool)
    modifies fs
    ensures (ok, fs.files) == AtomicWriteSpec(old(fs.files), outpath, w, renameAllowed)
  {
    var tmp := outpath + ".tmp";
    var written := fs.WritePng(tmp, w);
    if !written {
      return false;
    }
    fs.Remove(outpath);
    assert tmp in fs.files;
    ok := fs.Rename(tmp, outpath, renameAllowed);
  }
}
