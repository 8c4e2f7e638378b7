/**
 * The part of Node's `fs` and `path` modules the backend relies on: a file
 * system holding regular files (path to contents) and directories, with
 * `existsSync`, `mkdirSync(p, { recursive: true })`, `writeFile` and
 * `unlinkSync`. External programs are queried through a caller-supplied
 * oracle that sees their invocation and the files present.
 */
module Files {
  import opened Wrappers

  /** Errors a call can raise. */
  datatype Error =
    | IoError(code: string, path: string)    // a rejected file-system call, with its errno name
    | Thrown(message: string)                // an `Error` raised by the code itself
    | CommandFailed(command: string)         // a shell command that exited unsuccessfully

  /** How an external program is started. */
  datatype Invocation =
    | ExecFile(file: string, args: seq<string>, home: string)  // `execFile`, with `HOME` in its environment
    | Shell(command: string)                                    // `exec` of a command line

  /** `path.join(dir, name)` for a directory and a single file name. */
  function Join(dir: string, name: string): string {
    dir + "/" + name
  }

  /** The index of the last `/` in `s`, or -1. */
  function LastSlash(s: string): (r: int)
    ensures -1 <= r < |s|
    ensures r >= 0 ==> s[r] == '/'
    ensures forall j :: r < j < |s| ==> s[j] != '/'
  {
    if |s| == 0 then -1
    else if s[|s| - 1] == '/' then |s| - 1
    else LastSlash(s[..|s| - 1])
  }

  /** The directory part of a path: everything before its last `/`. */
  function Dirname(p: string): string {
    var i := LastSlash(p);
    if i < 0 then "" else p[..i]
  }

  /** A name without `/` joined to a directory has that directory as its parent. */
  lemma DirnameJoin(dir: string, name: string)
    requires '/' !in name
    ensures Dirname(Join(dir, name)) == dir
  {
    var p := Join(dir, name);
    assert p[|dir|] == '/';
    forall j | |dir| < j < |p| ensures p[j] != '/' {
      assert p[j] == name[j - |dir| - 1];
    }
    assert p[..|dir|] == dir;
  }

  /** Joining is injective in the name. */
  lemma JoinInjective(dir: string, a: string, b: string)
    requires Join(dir, a) == Join(dir, b)
    ensures a == b
  {
    assert a == Join(dir, a)[|dir| + 1..];
    assert b == Join(dir, b)[|dir| + 1..];
  }

  /** `path.basename(p)`: everything after the last `/`. */
  function Basename(p: string): string {
    p[LastSlash(p) + 1..]
  }

  /** A name without `/` joined to a directory is that path's base name. */
  lemma BasenameJoin(dir: string, name: string)
    requires '/' !in name
    ensures Basename(Join(dir, name)) == name
  {
    DirnameJoin(dir, name);
    var p := Join(dir, name);
    assert p[|dir|] == '/';
    assert |Dirname(p)| == |dir|;
    assert p[|dir| + 1..] == name;
  }

  /** The proper ancestors of `p`: every non-empty prefix ending just before a `/`. */
  function Ancestors(p: string): set<string> {
    set i | 0 < i < |p| && p[i] == '/' :: p[..i]
  }

  /** The directories `mkdir -p p` needs: the ancestors of `p`, and `p` itself. */
  function DirChain(p: string): set<string> {
    Ancestors(p) + {p}
  }

  /**
   * An error the environment injects into `writeFile` (a full disk, a denied
   * permission): its errno name and, when the failure came after `open` had
   * created or truncated the file, how many characters of the data reached
   * it. `None` there means the open itself failed, so nothing was created.
   */
  datatype WriteFault = WriteFault(code: string, written: Option<nat>)

  /** The part of `data` a write that stopped after `n` characters leaves. */
  function WrittenPrefix(data: string, n: nat): (r: string)
    ensures r <= data && |r| == if n < |data| then n else |data|
  {
    if n < |data| then data[..n] else data
  }

  /**
   * The error `writeFile(p, ...)` raises, if any: an injected fault, or the
   * path's own failure. A regular file on the way to `p` makes path
   * resolution fail with ENOTDIR; a missing parent directory with ENOENT.
   */
  function WriteError(files: map<string, string>, dirs: set<string>, p: string, fault: Option<WriteFault>): Option<Error> {
    if fault.Some? then Some(IoError(fault.value.code, p))
    else if p in dirs then Some(IoError("EISDIR", p))
    else if Ancestors(p) * files.Keys != {} then Some(IoError("ENOTDIR", p))
    else if Dirname(p) !in dirs then Some(IoError("ENOENT", p))
    else None
  }

  /**
   * The files after `writeFile(p, data)`. When the path can be opened, a
   * successful write leaves `data` there and a fault after the open leaves
   * what it left behind; when it cannot, nothing changes.
   */
  function FilesAfterWrite(files: map<string, string>, dirs: set<string>, p: string, data: string,
                           fault: Option<WriteFault>): map<string, string>
  {
    if WriteError(files, dirs, p, None).Some? then files
    else if fault.None? then files[p := data]
    else if fault.value.written.Some? then files[p := WrittenPrefix(data, fault.value.written.value)]
    else files
  }

  /**
   * What a write does to the files: on success the path holds the data; on
   * failure the path holds, once it could be opened, the prefix of the data
   * that reached it before the fault; nothing else changes in any case. A directory never becomes
   * a file.
   */
  lemma WriteEffect(files: map<string, string>, dirs: set<string>, p: string, data: string, fault: Option<WriteFault>)
    ensures var f := FilesAfterWrite(files, dirs, p, data, fault);
            && (WriteError(files, dirs, p, fault).None? ==> f == files[p := data])
            && f - {p} == files - {p}
            && f.Keys <= files.Keys + {p}
            && (WriteError(files, dirs, p, fault).Some? && p in f && p !in files ==>
                  fault.Some? && fault.value.written.Some? && f[p] <= data)
            && (WriteError(files, dirs, p, fault).Some? && (fault.None? || fault.value.written.None?) ==> f == files)
            && (fault.Some? && fault.value.written.Some? && WriteError(files, dirs, p, None).None? ==>
                  f == files[p := WrittenPrefix(data, fault.value.written.value)])
            && (files.Keys !! dirs ==> f.Keys !! dirs)
  {
    var f := FilesAfterWrite(files, dirs, p, data, fault);
    assert f - {p} == files - {p};
  }

  /**
   * The error `unlinkSync(p)` raises, if any: an injected fault, a
   * directory, or a missing file, reported as ENOTDIR when a regular file
   * lies on the way to it.
   */
  function UnlinkError(files: map<string, string>, dirs: set<string>, p: string, fault: Option<string>): Option<Error> {
    if fault.Some? then Some(IoError(fault.value, p))
    else if p in dirs then Some(IoError("EISDIR", p))
    else if p in files then None
    else if Ancestors(p) * files.Keys != {} then Some(IoError("ENOTDIR", p))
    else Some(IoError("ENOENT", p))
  }

  /**
   * The error `mkdirSync(p, { recursive: true })` raises, if any: an
   * injected `fault` (a denied permission, a read-only mount), or a path on
   * the way that is a regular file.
   */
  function MkdirError(files: map<string, string>, p: string, fault: Option<string>): (r: Option<Error>)
    ensures r.Some? ==> r.value.IoError? && r.value.path == p
    ensures r.None? <==> fault.None? && DirChain(p) * files.Keys == {}
  {
    if fault.Some? then Some(IoError(fault.value, p))
    else if DirChain(p) * files.Keys == {} then None
    else if p in files then Some(IoError("EEXIST", p))
    else Some(IoError("ENOTDIR", p))
  }

  /**
   * `if (!fs.existsSync(p)) fs.mkdirSync(p, { recursive: true })`: the
   * directories afterwards, or the error `mkdirSync` raises.
   */
  function EnsureDir(files: map<string, string>, dirs: set<string>, p: string, fault: Option<string>): (r: Result<set<string>, Error>)
    ensures r.Failure? ==> MkdirError(files, p, fault).Some? && r.error == MkdirError(files, p, fault).value
  {
    if p in files || p in dirs then Success(dirs)
    else if MkdirError(files, p, fault).Some? then Failure(MkdirError(files, p, fault).value)
    else Success(dirs + DirChain(p))
  }

  /**
   * Create-if-absent: an existing path, file or directory, is left alone;
   * otherwise exactly the path and its ancestors are added as directories,
   * unless one of them is a regular file. Nothing is ever removed.
   */
  lemma EnsureDirCases(files: map<string, string>, dirs: set<string>, p: string, fault: Option<string>)
    ensures p in dirs || p in files ==> EnsureDir(files, dirs, p, fault) == Success(dirs)
    ensures EnsureDir(files, dirs, p, fault).Success? ==> dirs <= EnsureDir(files, dirs, p, fault).value
    ensures EnsureDir(files, dirs, p, fault).Success? && p !in files ==> p in EnsureDir(files, dirs, p, fault).value
    ensures EnsureDir(files, dirs, p, fault).Success? && p !in files && p !in dirs ==>
      EnsureDir(files, dirs, p, fault).value == dirs + DirChain(p)
    ensures EnsureDir(files, dirs, p, fault).Failure? <==>
      p !in files && p !in dirs && (fault.Some? || exists q :: q in DirChain(p) && q in files)
    ensures p !in files && p !in dirs && fault.Some? ==>
      EnsureDir(files, dirs, p, fault) == Failure(IoError(fault.value, p))
  {
    if p !in files && p !in dirs && fault.None? {
      if exists q :: q in DirChain(p) && q in files {
        var q :| q in DirChain(p) && q in files;
        assert q in DirChain(p) * files.Keys;
      } else {
        forall q | q in DirChain(p) ensures q !in files {
        }
        assert DirChain(p) * files.Keys == {};
      }
    }
  }

  class FileSystem {
    var files: map<string, string>
    var dirs: set<string>

    /** No path is both a regular file and a directory. */
    ghost predicate Valid()
      reads this
    {
      files.Keys !! dirs
    }

    constructor(initialFiles: map<string, string>, initialDirs: set<string>)
      requires initialFiles.Keys !! initialDirs
      ensures Valid()
      ensures files == initialFiles && dirs == initialDirs
    {
      files := initialFiles;
      dirs := initialDirs;
    }

    /** `fs.existsSync(p)`. */
    function Exists(p: string): bool
      reads this
    {
      p in files || p in dirs
    }

    /** `fs.mkdirSync(p, { recursive: true })`: creates `p` and its missing ancestors. */
    method MkdirRecursive(p: string, fault: Option<string>) returns (r: Result<(), Error>)
      requires Valid()
      modifies this
      ensures Valid()
      ensures files == old(files)
      ensures MkdirError(old(files), p, fault).None? ==> r == Success(()) && dirs == old(dirs) + DirChain(p)
      ensures MkdirError(old(files), p, fault).Some? ==>
        r == Failure(MkdirError(old(files), p, fault).value) && dirs == old(dirs)
    {
      var e := MkdirError(files, p, fault);
      if e.Some? {
        return Failure(e.value);
      }
      dirs := dirs + DirChain(p);
      r := Success(());
    }

    /**
     * `fs.promises.writeFile(p, data)`: opens the path, creating or
     * truncating a regular file, then writes the data.
     */
    method WriteFile(p: string, data: string, fault: Option<WriteFault>) returns (r: Result<(), Error>)
      requires Valid()
      modifies this
      ensures Valid()
      ensures dirs == old(dirs)
      ensures files == FilesAfterWrite(old(files), old(dirs), p, data, fault)
      ensures WriteError(old(files), old(dirs), p, fault).None? ==> r == Success(())
      ensures WriteError(old(files), old(dirs), p, fault).Some? ==>
        r == Failure(WriteError(old(files), old(dirs), p, fault).value)
    {
      var openError := WriteError(files, dirs, p, None);
      if openError.Some? {
        if fault.Some? {
          return Failure(IoError(fault.value.code, p));
        }
        return Failure(openError.value);
      }
      if fault.Some? {
        if fault.value.written.Some? {
          files := files[p := WrittenPrefix(data, fault.value.written.value)];
        }
        return Failure(IoError(fault.value.code, p));
      }
      files := files[p := data];
      r := Success(());
    }

    /** `fs.unlinkSync(p)`: removes a regular file. */
    method Unlink(p: string, fault: Option<string>) returns (r: Result<(), Error>)
      requires Valid()
      modifies this
      ensures Valid()
      ensures dirs == old(dirs)
      ensures UnlinkError(old(files), old(dirs), p, fault).None? ==> r == Success(()) && files == old(files) - {p}
      ensures UnlinkError(old(files), old(dirs), p, fault).Some? ==>
        r == Failure(UnlinkError(old(files), old(dirs), p, fault).value) && files == old(files)
    {
      var e := UnlinkError(files, dirs, p, fault);
      if e.Some? {
        return Failure(e.value);
      }
      files := files - {p};
      r := Success(());
    }
  }
}
