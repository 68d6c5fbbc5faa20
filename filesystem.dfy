/**
 * The disk as the synchronization pass sees it through .NET's `Directory` and
 * `File` calls.  A path is an absolute string with '/' between its names; the
 * disk maps each existing path to a directory or to a file with its bytes.
 * `denied` names the paths on which every access fails (permission denied, a
 * device error): it stands for the environment failures a pass can meet.
 * Each call is a function that either gives the new disk or the error that
 * .NET would throw.
 */
module FileSystem {
  import opened Wrappers
  import opened Digests

  type Path = string

  const Sep: char := '/'

  type Bytes = seq<byte>

  datatype Node = Dir | File(data: Bytes)

  datatype IOError =
    | NotFound(path: Path)  // FileNotFoundException, DirectoryNotFoundException
    | Clash(path: Path)     // IOException: a file where a directory is expected, or the reverse
    | Denied(path: Path)    // UnauthorizedAccessException and device errors

  datatype Result<T> = Ok(value: T) | Err(error: IOError)

  datatype Disk = Disk(entries: map<Path, Node>, denied: set<Path>)

  /** A resolved directory path: a leading separator and no trailing one. */
  predicate IsAbsolute(p: Path)
  {
    |p| > 1 && p[0] == Sep && p[|p| - 1] != Sep
  }

  /** `p` lies strictly inside the directory `root`. */
  predicate IsUnder(root: Path, p: Path)
  {
    |p| > |root| && p[..|root|] == root && p[|root|] == Sep
  }

  /** `a` names one of the directories that contain `p`. */
  predicate IsAncestor(a: Path, p: Path)
  {
    |a| > 0 && IsUnder(a, p)
  }

  predicate IsDir(d: Disk, p: Path)
  {
    p in d.entries && d.entries[p].Dir?
  }

  predicate IsFile(d: Disk, p: Path)
  {
    p in d.entries && d.entries[p].File?
  }

  /** Every directory that contains an entry exists, as a directory. */
  ghost predicate WellFormed(d: Disk)
  {
    forall p, a :: p in d.entries && IsAncestor(a, p) ==> IsDir(d, a)
  }

  /** `d'` keeps every entry of `d` as it was, and the same failing paths. */
  ghost predicate Grows(d: Disk, d': Disk)
  {
    && d'.denied == d.denied
    && forall q :: q in d.entries ==> q in d'.entries && d'.entries[q] == d.entries[q]
  }

  /** `d'` is `d` with some entries removed and nothing else changed. */
  ghost predicate Shrinks(d: Disk, d': Disk)
  {
    && d'.denied == d.denied
    && forall q :: q in d'.entries ==> q in d.entries && d'.entries[q] == d.entries[q]
  }

  /** `p` and the directories that contain it. */
  function Chain(p: Path): (c: set<Path>)
    ensures forall a :: a in c <==> a == p || IsAncestor(a, p)
  {
    var c := {p} + set i | 0 < i < |p| && p[i] == Sep :: p[..i];
    assert forall a :: IsAncestor(a, p) ==> a == p[..|a|] && a in c;
    c
  }

  /** All directories below `root`, at any depth. */
  function DirsUnder(d: Disk, root: Path): set<Path>
  {
    set p | p in d.entries && d.entries[p].Dir? && IsUnder(root, p)
  }

  /** All files below `root`, at any depth. */
  function FilesUnder(d: Disk, root: Path): set<Path>
  {
    set p | p in d.entries && d.entries[p].File? && IsUnder(root, p)
  }

  lemma UnderTransitive(a: Path, b: Path, c: Path)
    requires IsUnder(a, b) && IsUnder(b, c)
    ensures IsUnder(a, c)
  {
    assert c[..|b|][..|a|] == c[..|a|];
  }

  /**
   * Two directories that contain the same path are nested one in the other.
   */
  lemma AncestorsNested(a: Path, b: Path, p: Path)
    requires IsUnder(a, p) && IsUnder(b, p) && |a| <= |b|
    ensures a == b || IsUnder(a, b)
  {
    assert p[..|b|][..|a|] == p[..|a|];
  }

  /** `Directory.CreateDirectory(p)`: creates `p` and every missing directory above it. */
  function CreateDirectory(d: Disk, p: Path): (r: Result<Disk>)
    ensures r.Ok? <==> forall a :: a in Chain(p) ==> !IsFile(d, a) && (a in d.entries || a !in d.denied)
    ensures r.Ok? ==> Grows(d, r.value) && IsDir(r.value, p)
    ensures r.Ok? ==> forall a :: IsAncestor(a, p) ==> IsDir(r.value, a)
    ensures r.Ok? ==> forall q :: q in r.value.entries && q !in d.entries ==> IsDir(r.value, q) && q in Chain(p)
    ensures r.Ok? && WellFormed(d) ==> WellFormed(r.value)
  {
    var chain := Chain(p);
    if exists a :: a in chain && IsFile(d, a) then Err(Clash(p))
    else if exists a :: a in chain && a !in d.entries && a in d.denied then Err(Denied(p))
    else
      var d' := d.(entries := d.entries + map a | a in chain && a !in d.entries :: Dir);
      assert forall a :: a in chain ==> IsDir(d', a);
      assert WellFormed(d) ==> WellFormed(d') by {
        if WellFormed(d) {
          forall q, a | q in d'.entries && IsAncestor(a, q)
            ensures IsDir(d', a)
          {
            if q !in d.entries && q != p {
              UnderTransitive(a, q, p);
            }
          }
        }
      }
      Ok(d')
  }

  /**
   * `File.Copy(from, to, overwrite)`: the source must be a readable file, the
   * target's directory must exist, the target must not be a directory, and an
   * existing target file is replaced only when `overwrite` is set.
   */
  function Copy(d: Disk, from: Path, to: Path, overwrite: bool): (r: Result<Disk>)
    ensures r.Ok? <==>
      && IsFile(d, from) && from !in d.denied
      && (forall a :: IsAncestor(a, to) ==> IsDir(d, a))
      && !IsDir(d, to) && (overwrite || to !in d.entries) && to !in d.denied
    ensures r.Ok? ==> r.value == d.(entries := d.entries[to := d.entries[from]])
    ensures r.Ok? && WellFormed(d) ==> WellFormed(r.value)
  {
    if from !in d.entries then Err(NotFound(from))
    else if d.entries[from].Dir? then Err(Clash(from))
    else if from in d.denied then Err(Denied(from))
    else if exists a :: a in Chain(to) && a != to && !IsDir(d, a) then Err(NotFound(to))
    else if IsDir(d, to) then Err(Clash(to))
    else if to in d.entries && !overwrite then Err(Clash(to))
    else if to in d.denied then Err(Denied(to))
    else
      var d' := d.(entries := d.entries[to := d.entries[from]]);
      assert WellFormed(d) ==> WellFormed(d') by {
        if WellFormed(d) {
          forall q, a | q in d'.entries && IsAncestor(a, q)
            ensures IsDir(d', a)
          {
            assert a in Chain(to) ==> a != to;
            assert IsDir(d, a);
            assert a != to;
          }
        }
      }
      Ok(d')
  }

  /** `p` itself or anything below it. */
  predicate InSubtree(p: Path, q: Path)
  {
    q == p || IsUnder(p, q)
  }

  /** `Directory.Delete(p, true)`: removes the directory `p` with everything below it. */
  function DeleteDirectory(d: Disk, p: Path): (r: Result<Disk>)
    ensures r.Ok? <==> IsDir(d, p) && forall q :: q in d.entries && InSubtree(p, q) ==> q !in d.denied
    ensures r.Ok? ==> Shrinks(d, r.value)
    ensures r.Ok? ==> forall q :: q in d.entries ==> (q in r.value.entries <==> !InSubtree(p, q))
    ensures r.Ok? && WellFormed(d) ==> WellFormed(r.value)
  {
    if p !in d.entries then Err(NotFound(p))
    else if d.entries[p].File? then Err(Clash(p))
    else if exists q :: q in d.entries && InSubtree(p, q) && q in d.denied then Err(Denied(p))
    else
      var d' := d.(entries := map q | q in d.entries && !InSubtree(p, q) :: d.entries[q]);
      assert WellFormed(d) ==> WellFormed(d') by {
        if WellFormed(d) {
          forall q, a | q in d'.entries && IsAncestor(a, q)
            ensures IsDir(d', a)
          {
            if InSubtree(p, a) {
              if a != p {
                UnderTransitive(p, a, q);
              }
              assert false;
            }
          }
        }
      }
      Ok(d')
  }

  /**
   * `File.Delete(p)`: a missing file is not an error, a missing directory above
   * it is, and so is a directory in its place.
   */
  function DeleteFile(d: Disk, p: Path): (r: Result<Disk>)
    ensures r.Ok? <==> !IsDir(d, p) && p !in d.denied && forall a :: IsAncestor(a, p) ==> IsDir(d, a)
    ensures r.Ok? ==> Shrinks(d, r.value) && p !in r.value.entries
    ensures r.Ok? ==> forall q :: q in d.entries && q != p ==> q in r.value.entries
    ensures r.Ok? && WellFormed(d) ==> WellFormed(r.value)
  {
    if IsDir(d, p) then Err(Clash(p))
    else if p in d.denied then Err(Denied(p))
    else if exists a :: a in Chain(p) && a != p && !IsDir(d, a) then Err(NotFound(p))
    else Ok(d.(entries := d.entries - {p}))
  }

  /** `File.OpenRead(p)` read to the end. */
  function ReadFile(d: Disk, p: Path): (r: Result<Bytes>)
    ensures r.Ok? <==> IsFile(d, p) && p !in d.denied
    ensures r.Ok? ==> r.value == d.entries[p].data
  {
    if p !in d.entries then Err(NotFound(p))
    else if d.entries[p].Dir? then Err(Clash(p))
    else if p in d.denied then Err(Denied(p))
    else Ok(d.entries[p].data)
  }

  /** Listing below `root` fails when `root` or a directory below it cannot be opened. */
  predicate CanWalk(d: Disk, root: Path)
  {
    IsDir(d, root) && root !in d.denied && forall q :: q in DirsUnder(d, root) ==> q !in d.denied
  }

  /** `Directory.GetDirectories(root, "*", SearchOption.AllDirectories)`, as a set. */
  function ListDirectories(d: Disk, root: Path): (r: Result<set<Path>>)
    ensures r.Ok? <==> CanWalk(d, root)
    ensures r.Ok? ==> forall q :: q in r.value <==> IsDir(d, q) && IsUnder(root, q)
  {
    if root !in d.entries then Err(NotFound(root))
    else if d.entries[root].File? then Err(Clash(root))
    else if !CanWalk(d, root) then Err(Denied(root))
    else Ok(DirsUnder(d, root))
  }

  /** `Directory.GetFiles(root, "*", SearchOption.AllDirectories)`, as a set. */
  function ListFiles(d: Disk, root: Path): (r: Result<set<Path>>)
    ensures r.Ok? <==> CanWalk(d, root)
    ensures r.Ok? ==> forall q :: q in r.value <==> IsFile(d, q) && IsUnder(root, q)
  {
    if root !in d.entries then Err(NotFound(root))
    else if d.entries[root].File? then Err(Clash(root))
    else if !CanWalk(d, root) then Err(Denied(root))
    else Ok(FilesUnder(d, root))
  }
}
