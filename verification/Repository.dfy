/** The files and directories of a repository, and the file system calls that activation makes on them. */
module Repository {
  import opened Text

  /** Stands for the message of the error that a failed call throws. */
  const IO_ERROR := "call failed"

  /** A path relative to the repository root; `[]` is the root. */
  type Path = seq<string>

  datatype Repo = Repo(files: map<Path, string>, dirs: set<Path>)

  /** A directory and all its ancestors. */
  function Chain(d: Path): (c: set<Path>)
    ensures forall x: Path :: x in c <==> x <= d
  {
    var c := set i | 0 <= i <= |d| :: d[..i];
    assert forall x: Path :: x <= d ==> d[..|x|] in c && d[..|x|] == x;
    c
  }

  /** With a directory its ancestors exist. */
  ghost predicate Closed(dirs: set<Path>) {
    forall d | d in dirs :: Chain(d) <= dirs
  }

  lemma ChainClosed(d: Path)
    ensures Closed(Chain(d))
  {
  }

  function Parent(p: Path): Path
    requires p != []
  {
    p[..|p| - 1]
  }

  /** `writeFileSync` fails for the paths in `fails`, and when the directory does not exist. */
  predicate CanWrite(w: Repo, p: Path, fails: set<Path>)
    requires p != []
  {
    p !in fails && Parent(p) in w.dirs
  }

  /** `mkdirSync(d, { recursive: true })` fails for the paths in `fails` that are not there yet. */
  predicate CanMkdir(w: Repo, d: Path, fails: set<Path>) {
    d in w.dirs || d !in fails
  }

  function AfterMkdir(w: Repo, d: Path, fails: set<Path>): Repo {
    if CanMkdir(w, d, fails) then w.(dirs := w.dirs + Chain(d)) else w
  }

  function FileAt(w: Repo, p: Path): Option<string> {
    if p in w.files then Some(w.files[p]) else None
  }

  function AfterWrite(w: Repo, p: Path, text: string, fails: set<Path>): Repo
    requires p != []
  {
    if CanWrite(w, p, fails) then w.(files := w.files[p := text]) else w
  }

  lemma WriteAt(w: Repo, p: Path, text: string, fails: set<Path>, q: Path)
    requires p != []
    ensures AfterWrite(w, p, text, fails).dirs == w.dirs
    ensures FileAt(AfterWrite(w, p, text, fails), q) ==
            if q == p && CanWrite(w, p, fails) then Some(text) else FileAt(w, q)
  {
  }

  class Workspace {
    var files: map<Path, string>
    var dirs: set<Path>

    ghost function State(): Repo
      reads this
    {
      Repo(files, dirs)
    }

    constructor (w: Repo)
      ensures State() == w
    {
      files := w.files;
      dirs := w.dirs;
    }

    method Mkdir(d: Path, fails: set<Path>) returns (ok: bool)
      modifies this`dirs
      ensures State() == AfterMkdir(old(State()), d, fails)
      ensures ok <==> CanMkdir(old(State()), d, fails)
      ensures ok <==> d in old(dirs) || d !in fails
      ensures forall x :: x in dirs <==> x in old(dirs) || (ok && x <= d)
    {
      ok := d in dirs || d !in fails;
      if ok {
        dirs := dirs + Chain(d);
      }
    }

    method Write(p: Path, text: string, fails: set<Path>) returns (ok: bool)
      requires p != []
      modifies this`files
      ensures State() == AfterWrite(old(State()), p, text, fails)
      ensures ok <==> CanWrite(old(State()), p, fails)
      ensures ok <==> p !in fails && p[..|p| - 1] in dirs
      ensures files == if ok then old(files)[p := text] else old(files)
    {
      ok := p !in fails && Parent(p) in dirs;
      if ok {
        files := files[p := text];
      }
    }
  }
}
