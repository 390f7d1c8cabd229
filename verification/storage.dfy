/**
 * The storage disk as the trait uses it: a set of stored paths with
 * existence checks, deletion, moves and placement of uploaded files.
 */
module Storage {
  import opened Text

  /** Where `putFile($dir, $file)` stores a file whose generated leaf name is `name`. */
  function PutFilePath(dir: string, name: string): (p: string)
    ensures p == [] || (p[0] != '/' && p[|p| - 1] != '/')
  {
    Trim(dir + "/" + name)
  }

  /**
   * A file whose leaf name holds no '/' is stored under that name: the path
   * `putFile` yields ends with it, whatever the directory.
   */
  lemma PutFilePathEndsWithName(dir: string, name: string)
    requires name != [] && '/' !in name
    ensures var p := PutFilePath(dir, name); |name| <= |p| && p[|p| - |name|..] == name
  {
    var x := dir + "/" + name;
    var l := TrimLeft(x);
    TrimLeftSuffix(x);
    TrimLeftDropsSeparators(x);
    assert x[|x| - |name|] == name[0];
    assert |x| - |name| >= |x| - |l|;
    assert l[|l| - 1] == x[|x| - 1] == name[|name| - 1];
    assert TrimRight(l) == l;
    assert l[|l| - |name|..] == x[|x| - |name|..];
    assert x[|x| - |name|..] == name;
  }

  /** The stored paths after moving `from` to `to`; nothing moves when `from` is not stored. */
  function Moved(files: set<string>, from: string, to: string): (r: set<string>)
    ensures from in files ==> to in r && (from != to ==> from !in r)
    ensures from !in files ==> r == files
    ensures forall p :: p != from && p != to ==> (p in r <==> p in files)
  {
    if from in files then files - {from} + {to} else files
  }

  class Store {
    var files: set<string>

    constructor (files: set<string>)
      ensures this.files == files
    {
      this.files := files;
    }

    /**
     * `has($path)`: whether the disk holds a file at `path`. The ensures is
     * the definition of the query on the abstract disk, stated for callers.
     */
    predicate Has(path: string)
      reads this
      ensures Has(path) <==> path in files
    {
      path in files
    }

    /** `delete($path)`; deleting a path that is not stored changes nothing. */
    method Delete(path: string)
      modifies this
      ensures files == old(files) - {path}
    {
      files := files - {path};
    }

    /** `move($from, $to)`; reports false, and moves nothing, when `from` is not stored. */
    method Move(from: string, to: string) returns (moved: bool)
      modifies this
      ensures moved == (from in old(files))
      ensures files == Moved(old(files), from, to)
    {
      moved := from in files;
      if moved {
        files := files - {from} + {to};
      }
    }

    /** `putFile($dir, $file)` for a file whose generated leaf name is `name`. */
    method PutFile(dir: string, name: string) returns (path: string)
      modifies this
      ensures path == PutFilePath(dir, name)
      ensures files == old(files) + {path}
    {
      path := PutFilePath(dir, name);
      files := files + {path};
    }
  }
}
