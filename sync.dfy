/**
 * One synchronization pass (`SyncFolder`, Program.cs lines 127-196): four
 * sweeps, in this order, over listings taken at the start of each sweep:
 * create the missing directories, copy new and changed files, delete orphan
 * directories with their contents, delete orphan files.  A path is carried to
 * the other tree with `Replace(root, otherRoot)`.  The first exception ends the
 * pass; what was already done stays done.
 */
module Sync {
  import opened Wrappers
  import opened Strings
  import opened Digests
  import opened FileSystem

  datatype Action = DirCreated | FileCopied | FileUpdated | DirDeleted | FileDeleted

  /** A line of the log file: what was done, and to which replica path. */
  datatype LogLine = LogLine(action: Action, path: Path)

  /** The state of a pass: the disk, the log file, and the exception that ended the pass. */
  datatype Run = Run(disk: Disk, log: seq<LogLine>, error: Option<IOError>)

  /** The paths named by some lines of the log. */
  function Logged(lines: seq<LogLine>, action: Action): set<Path>
  {
    set l | l in lines && l.action == action :: l.path
  }

  /** `CalculateMD5` (lines 199-209): the digest string of a file's contents. */
  function CalculateMD5(d: Disk, p: Path, md5: Bytes -> Digest): (r: Result<string>)
    ensures r.Ok? <==> IsFile(d, p) && p !in d.denied
    ensures r.Ok? ==> r.value == HexString(md5(d.entries[p].data)) && |r.value| == 32
  {
    match ReadFile(d, p)
    case Err(e) => Err(e)
    case Ok(data) =>
      DigestStringFormat(md5(data));
      Ok(HexString(md5(data)))
  }

  /** Two contents that line 159 finds equal: their digest strings agree. */
  predicate SameDigest(a: Bytes, b: Bytes, md5: Bytes -> Digest)
  {
    HexString(md5(a)) == HexString(md5(b))
  }

  /* ---------------------------------------------------------------------------
   * Path mapping
   * ------------------------------------------------------------------------- */

  /** The relative part of `p` never repeats either root's text. */
  predicate PlainRel(rel: string, src: Path, rep: Path)
  {
    !Occurs(rel, src) && !Occurs(rel, rep)
  }

  /** Every entry below either root has a plain relative part. */
  ghost predicate Plain(d: Disk, src: Path, rep: Path)
  {
    forall p :: p in d.entries ==>
      && (IsUnder(src, p) ==> PlainRel(p[|src|..], src, rep))
      && (IsUnder(rep, p) ==> PlainRel(p[|rep|..], src, rep))
  }

  /** Two distinct resolved roots, neither inside the other. */
  predicate Disjoint(src: Path, rep: Path)
  {
    IsAbsolute(src) && IsAbsolute(rep) && src != rep && !IsUnder(src, rep) && !IsUnder(rep, src)
  }

  /**
   * The situation in which a pass can converge: both roots exist, the disk is a
   * tree, and `Replace` carries paths between the roots as a prefix swap.
   */
  ghost predicate Regular(d: Disk, src: Path, rep: Path)
  {
    Disjoint(src, rep) && WellFormed(d) && IsDir(d, src) && IsDir(d, rep) && Plain(d, src, rep)
  }

  /**
   * Whatever the paths, `Replace` carries an entry below the source root to a
   * path below the replica root, because both roots start with the separator.
   */
  lemma MappedUnder(p: Path, src: Path, rep: Path)
    requires IsAbsolute(src) && IsAbsolute(rep) && IsUnder(src, p)
    ensures IsUnder(rep, Replace(p, src, rep))
  {
    var rest := p[|src|..];
    assert p[..|src|] == src;
    assert Replace(p, src, rep) == rep + Replace(rest, src, rep);
    var t := Replace(rest, src, rep);
    if |rest| >= |src| && rest[..|src|] == src {
      assert t[0] == rep[0];
    } else if |rest| >= |src| {
      assert t[0] == rest[0];
    }
  }

  /** Below a root, with a plain relative part, `Replace` swaps the root. */
  lemma MapPlain(p: Path, from: Path, to: Path)
    requires |from| > 0 && IsUnder(from, p) && !Occurs(p[|from|..], from)
    ensures Replace(p, from, to) == to + p[|from|..]
  {
    assert p == from + p[|from|..];
    ReplaceRoot(p[|from|..], from, to);
  }

  /** A prefix of a string without an occurrence has none either. */
  lemma NoOccursPrefix(s: string, pat: string, n: nat)
    requires n <= |s| && !Occurs(s, pat)
    ensures !Occurs(s[..n], pat)
  {
    forall i: nat | i <= n
      ensures !OccursAt(s[..n], pat, i)
    {
      assert !OccursAt(s, pat, i);
      if i + |pat| <= n {
        assert s[..n][i..i + |pat|] == s[i..i + |pat|];
      }
    }
  }

  /** Swapping the root keeps one path inside another. */
  lemma RebaseUnder(a: Path, b: Path, from: Path, to: Path)
    requires IsUnder(from, a) && IsUnder(a, b)
    ensures IsUnder(to + a[|from|..], to + b[|from|..])
  {
    UnderTransitive(from, a, b);
    var a', b' := to + a[|from|..], to + b[|from|..];
    assert b'[..|a'|] == to + b[|from|..|a|];
    assert b[|from|..|a|] == a[|from|..];
    assert b'[|a'|] == b[|a|];
  }

  /** A directory that contains a path below `rep` is above, at or below `rep`. */
  lemma AncestorAroundRoot(a: Path, q: Path, rep: Path)
    requires IsUnder(rep, q) && IsAncestor(a, q)
    ensures IsAncestor(a, rep) || a == rep || IsUnder(rep, a)
  {
    if |a| <= |rep| {
      AncestorsNested(a, rep, q);
    } else {
      AncestorsNested(rep, a, q);
    }
  }

  /* ---------------------------------------------------------------------------
   * Enumeration order
   * ------------------------------------------------------------------------- */

  lemma ShortestExists(s: set<Path>)
    requires s != {}
    ensures exists x :: x in s && forall y :: y in s ==> |x| <= |y|
    decreases |s|
  {
    var x :| x in s;
    if s != {x} {
      ShortestExists(s - {x});
      var m :| m in s - {x} && forall y :: y in s - {x} ==> |m| <= |y|;
      if |x| <= |m| {
        assert forall y :: y in s ==> |x| <= |y|;
      } else {
        assert forall y :: y in s ==> |m| <= |y|;
      }
    } else {
      assert forall y :: y in s ==> |x| <= |y|;
    }
  }

  /**
   * The listing of a recursive `GetDirectories` or `GetFiles`: each path once,
   * in an order the model leaves open except that, as in .NET, a directory
   * comes before everything below it.
   */
  method Enumerate(s: set<Path>) returns (xs: seq<Path>)
    ensures forall x :: x in xs <==> x in s
    ensures forall i, j :: 0 <= i < j < |xs| ==> xs[i] != xs[j]
    ensures forall i, j :: 0 <= i < |xs| && 0 <= j < |xs| && IsUnder(xs[i], xs[j]) ==> i < j
  {
    xs := [];
    var rest := s;
    while rest != {}
      invariant rest <= s
      invariant forall x :: x in xs <==> x in s && x !in rest
      invariant forall i, j :: 0 <= i < j < |xs| ==> xs[i] != xs[j]
      invariant forall i, j :: 0 <= i < |xs| && 0 <= j < |xs| && IsUnder(xs[i], xs[j]) ==> i < j
      invariant forall i, y :: 0 <= i < |xs| && y in rest ==> !IsUnder(y, xs[i])
      decreases rest
    {
      ShortestExists(rest);
      var x :| x in rest && forall y :: y in rest ==> |x| <= |y|;
      xs := xs + [x];
      rest := rest - {x};
    }
  }

  /** The items handled after one more iteration of a loop over `xs`. */
  lemma PrefixStep(xs: seq<Path>, i: nat)
    requires i < |xs|
    ensures xs[..i + 1] == xs[..i] + [xs[i]]
  {
  }

  /* ---------------------------------------------------------------------------
   * What a finished pass promises
   * ------------------------------------------------------------------------- */

  /** Every source directory has a replica directory (sweep 1). */
  ghost predicate DirsMirrored(d: Disk, src: Path, rep: Path)
    requires |src| > 0
  {
    forall p :: IsDir(d, p) && IsUnder(src, p) ==> IsDir(d, Replace(p, src, rep))
  }

  /** Every source file has a replica file whose digest agrees (sweep 2). */
  ghost predicate FilesMirrored(d: Disk, src: Path, rep: Path, md5: Bytes -> Digest)
    requires |src| > 0
  {
    forall p :: IsFile(d, p) && IsUnder(src, p) ==>
      && IsFile(d, Replace(p, src, rep))
      && SameDigest(d.entries[p].data, d.entries[Replace(p, src, rep)].data, md5)
  }

  /** Every replica directory has a source directory (sweep 3). */
  ghost predicate NoOrphanDirs(d: Disk, src: Path, rep: Path)
    requires |rep| > 0
  {
    forall q :: IsDir(d, q) && IsUnder(rep, q) ==> IsDir(d, Replace(q, rep, src))
  }

  /** Every replica file has a source file (sweep 4). */
  ghost predicate NoOrphanFiles(d: Disk, src: Path, rep: Path)
    requires |rep| > 0
  {
    forall q :: IsFile(d, q) && IsUnder(rep, q) ==> IsFile(d, Replace(q, rep, src))
  }

  ghost predicate Mirrors(d: Disk, src: Path, rep: Path, md5: Bytes -> Digest)
    requires |src| > 0 && |rep| > 0
  {
    DirsMirrored(d, src, rep) && FilesMirrored(d, src, rep, md5) && NoOrphanDirs(d, src, rep) && NoOrphanFiles(d, src, rep)
  }

  /* ---------------------------------------------------------------------------
   * The body of each loop
   * ------------------------------------------------------------------------- */

  /** Lines 134-140: create the replica directory of `srcDir` unless it exists. */
  function CreateStep(r: Run, srcDir: Path, src: Path, rep: Path): (r': Run)
    requires r.error.None? && |src| > 0
    ensures var target := Replace(srcDir, src, rep);
      && (IsDir(r.disk, target) ==> r' == r)
      && (r'.error.Some? ==> r'.disk == r.disk && r'.log == r.log)
      && (!IsDir(r.disk, target) ==>
            (r'.error.None? <==> CreateDirectory(r.disk, target).Ok?))
      && (!IsDir(r.disk, target) && r'.error.None? ==>
            && CreateDirectory(r.disk, target) == Ok(r'.disk)
            && r'.log == r.log + [LogLine(DirCreated, target)])
  {
    var target := Replace(srcDir, src, rep);
    if IsDir(r.disk, target) then r
    else match CreateDirectory(r.disk, target)
      case Err(e) => r.(error := Some(e))
      case Ok(d) => Run(d, r.log + [LogLine(DirCreated, target)], None)
  }

  /* ---------------------------------------------------------------------------
   * Sweep 1: missing directories
   * ------------------------------------------------------------------------- */

  /** Below the replica root is never below the source root. */
  lemma DisjointSubtrees(src: Path, rep: Path, q: Path)
    requires Disjoint(src, rep) && IsUnder(rep, q)
    ensures !InSubtree(src, q) && !IsAncestor(q, src)
  {
    if IsUnder(src, q) {
      if |src| <= |rep| {
        AncestorsNested(src, rep, q);
      } else {
        AncestorsNested(rep, src, q);
      }
    }
    if IsAncestor(q, src) {
      UnderTransitive(rep, q, src);
    }
  }

  /** The relative part of an entry below the source root is plain. */
  lemma PlainAt(d: Disk, src: Path, rep: Path, p: Path)
    requires Regular(d, src, rep) && p in d.entries && IsUnder(src, p)
    ensures PlainRel(p[|src|..], src, rep)
    ensures Replace(p, src, rep) == rep + p[|src|..]
    ensures IsUnder(rep, rep + p[|src|..])
    ensures (rep + p[|src|..])[|rep|..] == p[|src|..]
  {
    MapPlain(p, src, rep);
  }

  /**
   * Under a regular disk, creating the replica directory of `p` adds nothing
   * but that directory once every source directory above `p` is mirrored.
   */
  lemma ChainPresent(d0: Disk, d: Disk, src: Path, rep: Path, p: Path, c: Path)
    requires Regular(d0, src, rep) && Grows(d0, d)
    requires IsDir(d0, p) && IsUnder(src, p)
    requires forall a :: IsDir(d0, a) && IsUnder(src, a) && IsUnder(a, p) ==> IsDir(d, Replace(a, src, rep))
    requires c in Chain(rep + p[|src|..]) && c != rep + p[|src|..]
    ensures c in d.entries
  {
    var target := rep + p[|src|..];
    PlainAt(d0, src, rep, p);
    AncestorAroundRoot(c, target, rep);
    if IsAncestor(c, rep) {
      assert IsDir(d0, c);
    } else if IsUnder(rep, c) {
      var a := src + c[|rep|..];
      RebaseUnder(c, target, rep, src);
      assert src + target[|rep|..] == p;
      assert IsUnder(a, p);
      UnderTransitive(src, a, p) by {
        assert a[..|src|] == src && a[|src|] == c[|rep|];
      }
      assert IsDir(d0, a);
      var rel := p[|src|..];
      assert a[|src|..] == c[|rep|..] == rel[..|c| - |rep|];
      NoOccursPrefix(rel, src, |c| - |rep|);
      MapPlain(a, src, rep);
      assert Replace(a, src, rep) == c;
    }
  }

  /**
   * What sweep 1 may have done since `r0`: only add directories, each on the
   * replica side (or above the replica root), and log each one it added.
   */
  ghost predicate OnlyCreated(r0: Run, r: Run, src: Path, rep: Path)
    requires |src| > 0 && |rep| > 0
  {
    && Grows(r0.disk, r.disk)
    && r0.log <= r.log
    && (WellFormed(r0.disk) ==> WellFormed(r.disk))
    && (forall q :: q in r.disk.entries && q !in r0.disk.entries ==>
          IsDir(r.disk, q) && (InSubtree(rep, q) || IsAncestor(q, rep)))
    && (forall l :: l in r.log[|r0.log|..] ==>
          l.action == DirCreated && l.path !in r0.disk.entries && IsDir(r.disk, l.path))
    && (Regular(r0.disk, src, rep) ==> forall q :: q in r.disk.entries && q !in r0.disk.entries ==>
          && IsUnder(rep, q) && PlainRel(q[|rep|..], src, rep)
          && IsDir(r0.disk, src + q[|rep|..])
          && q in Logged(r.log[|r0.log|..], DirCreated))
  }

  /** Adding one logged directory on the replica side keeps `OnlyCreated`. */
  lemma AddDirKeeps(r0: Run, r: Run, r': Run, target: Path, src: Path, rep: Path)
    requires IsAbsolute(src) && IsAbsolute(rep) && IsUnder(rep, target)
    requires OnlyCreated(r0, r, src, rep)
    requires CreateDirectory(r.disk, target) == Ok(r'.disk) && !IsDir(r.disk, target)
    requires r'.log == r.log + [LogLine(DirCreated, target)]
    requires Regular(r0.disk, src, rep) ==>
      && PlainRel(target[|rep|..], src, rep) && IsDir(r0.disk, src + target[|rep|..])
      && forall c :: c in r'.disk.entries && c !in r.disk.entries ==> c == target
    ensures OnlyCreated(r0, r', src, rep)
  {
    var d := r'.disk;
    var added := r'.log[|r0.log|..];
    assert added == r.log[|r0.log|..] + [LogLine(DirCreated, target)];
    assert Logged(r.log[|r0.log|..], DirCreated) <= Logged(added, DirCreated);
    assert target in Logged(added, DirCreated);
    forall c | c in d.entries && c !in r.disk.entries
      ensures InSubtree(rep, c) || IsAncestor(c, rep)
    {
      if c != target {
        AncestorAroundRoot(c, target, rep);
      }
    }
    if Regular(r0.disk, src, rep) {
      forall c | c in d.entries && c !in r0.disk.entries
        ensures IsUnder(rep, c) && PlainRel(c[|rep|..], src, rep) && IsDir(r0.disk, src + c[|rep|..])
        ensures c in Logged(added, DirCreated)
      {
      }
    }
  }

  /** One iteration of sweep 1 keeps `OnlyCreated`, given that the directories above are done. */
  lemma CreateStepKeeps(r0: Run, r: Run, p: Path, src: Path, rep: Path)
    requires IsAbsolute(src) && IsAbsolute(rep) && r.error.None?
    requires OnlyCreated(r0, r, src, rep)
    requires IsDir(r0.disk, p) && IsUnder(src, p)
    requires Regular(r0.disk, src, rep) ==>
      forall a :: IsDir(r0.disk, a) && IsUnder(src, a) && IsUnder(a, p) ==> IsDir(r.disk, Replace(a, src, rep))
    ensures OnlyCreated(r0, CreateStep(r, p, src, rep), src, rep)
  {
    var r' := CreateStep(r, p, src, rep);
    var target := Replace(p, src, rep);
    MappedUnder(p, src, rep);
    if r'.error.None? && !IsDir(r.disk, target) {
      assert CreateDirectory(r.disk, target) == Ok(r'.disk);
      assert r'.log == r.log + [LogLine(DirCreated, target)];
      if Regular(r0.disk, src, rep) {
        PlainAt(r0.disk, src, rep, p);
        assert target[|rep|..] == p[|src|..];
        assert src + target[|rep|..] == p;
        forall c | c in r'.disk.entries && c !in r.disk.entries
          ensures c == target
        {
          if c != target {
            ChainPresent(r0.disk, r.disk, src, rep, p, c);
          }
        }
      }
      AddDirKeeps(r0, r, r', target, src, rep);
    }
  }

  /** The state of sweep 1 after the first `i` source directories of `dirs`. */
  ghost predicate CreateProgress(r0: Run, r: Run, dirs: seq<Path>, i: nat, src: Path, rep: Path)
    requires |src| > 0 && |rep| > 0
  {
    && i <= |dirs|
    && OnlyCreated(r0, r, src, rep)
    && (DirsMirrored(r0.disk, src, rep) ==> r == r0)
    && (r.error.None? ==> forall k :: 0 <= k < i ==> IsDir(r.disk, Replace(dirs[k], src, rep)))
  }

  /** One iteration of the loop of sweep 1, over a listing in parent-first order. */
  lemma CreateIteration(r0: Run, r: Run, dirs: seq<Path>, i: nat, src: Path, rep: Path)
    requires IsAbsolute(src) && IsAbsolute(rep) && r.error.None? && i < |dirs|
    requires forall x :: x in dirs <==> IsDir(r0.disk, x) && IsUnder(src, x)
    requires forall a, b :: 0 <= a < |dirs| && 0 <= b < |dirs| && IsUnder(dirs[a], dirs[b]) ==> a < b
    requires CreateProgress(r0, r, dirs, i, src, rep)
    ensures CreateProgress(r0, CreateStep(r, dirs[i], src, rep), dirs, i + 1, src, rep)
  {
    var p := dirs[i];
    forall a | IsDir(r0.disk, a) && IsUnder(src, a) && IsUnder(a, p)
      ensures IsDir(r.disk, Replace(a, src, rep))
    {
      assert a in dirs;
    }
    CreateStepKeeps(r0, r, p, src, rep);
  }

  /** A complete, successful sweep 1 mirrors every source directory of a regular disk. */
  lemma CreateEnd(r0: Run, r: Run, dirs: seq<Path>, src: Path, rep: Path)
    requires IsAbsolute(src) && IsAbsolute(rep) && r.error.None?
    requires forall x :: x in dirs <==> IsDir(r0.disk, x) && IsUnder(src, x)
    requires CreateProgress(r0, r, dirs, |dirs|, src, rep)
    ensures Regular(r0.disk, src, rep) ==> DirsMirrored(r.disk, src, rep) && Regular(r.disk, src, rep)
  {
    if Regular(r0.disk, src, rep) {
      forall q | q in r.disk.entries && IsUnder(rep, q)
        ensures !IsUnder(src, q)
      {
        DisjointSubtrees(src, rep, q);
      }
      forall p | IsDir(r.disk, p) && IsUnder(src, p)
        ensures IsDir(r.disk, Replace(p, src, rep))
      {
        assert p in dirs;
      }
    }
  }

  /** Lines 132-141: create the replica directory of every source directory. */
  method CreateMissingDirectories(r0: Run, src: Path, rep: Path) returns (r: Run)
    requires r0.error.None? && IsAbsolute(src) && IsAbsolute(rep)
    ensures OnlyCreated(r0, r, src, rep)
    ensures DirsMirrored(r0.disk, src, rep) ==> r.disk == r0.disk && r.log == r0.log
    ensures Regular(r0.disk, src, rep) && r.error.None? ==>
              DirsMirrored(r.disk, src, rep) && Regular(r.disk, src, rep)
  {
    var listing := ListDirectories(r0.disk, src);
    if listing.Err? {
      return r0.(error := Some(listing.error));
    }
    var dirs := Enumerate(listing.value);
    r := r0;
    var i: nat := 0;
    while i < |dirs| && r.error.None?
      invariant CreateProgress(r0, r, dirs, i, src, rep)
    {
      CreateIteration(r0, r, dirs, i, src, rep);
      r := CreateStep(r, dirs[i], src, rep);
      i := i + 1;
    }
    if r.error.None? {
      CreateEnd(r0, r, dirs, src, rep);
    }
  }

  /* ---------------------------------------------------------------------------
   * Sweep 2: new and changed files
   * ------------------------------------------------------------------------- */

  /** Lines 145-163: copy `srcFile` when its replica is missing, or when the digests differ. */
  function CopyStep(r: Run, srcFile: Path, src: Path, rep: Path, md5: Bytes -> Digest): (r': Run)
    requires r.error.None? && |src| > 0
    ensures var target := Replace(srcFile, src, rep);
      && (r'.error.Some? ==> r'.disk == r.disk && r'.log == r.log)
      && (WellFormed(r.disk) ==>
            (r'.error.None? <==>
               && IsFile(r.disk, srcFile) && srcFile !in r.disk.denied
               && !IsDir(r.disk, target) && target !in r.disk.denied
               && forall a :: IsAncestor(a, target) ==> IsDir(r.disk, a)))
      && (WellFormed(r.disk) ==> WellFormed(r'.disk))
      && (r'.error.None? ==>
            && IsFile(r.disk, srcFile) && !IsDir(r.disk, target) && IsFile(r'.disk, target)
            && SameDigest(r.disk.entries[srcFile].data, r'.disk.entries[target].data, md5))
      && ((r'.disk == r.disk && r'.log == r.log) ||
          (&& r'.error.None? && r'.disk != r.disk
           && r'.disk == r.disk.(entries := r.disk.entries[target := r.disk.entries[srcFile]])
           && r'.log == r.log + [LogLine(if IsFile(r.disk, target) then FileUpdated else FileCopied, target)]))
      && (r'.error.None? && IsFile(r.disk, target) ==>
            (r'.disk == r.disk <==> SameDigest(r.disk.entries[srcFile].data, r.disk.entries[target].data, md5)))
  {
    var target := Replace(srcFile, src, rep);
    if !IsFile(r.disk, target) then
      match Copy(r.disk, srcFile, target, false)
      case Err(e) => r.(error := Some(e))
      case Ok(d) => Run(d, r.log + [LogLine(FileCopied, target)], None)
    else
      match CalculateMD5(r.disk, srcFile, md5)
      case Err(e) => r.(error := Some(e))
      case Ok(sourceMD5) =>
        match CalculateMD5(r.disk, target, md5)
        case Err(e) => r.(error := Some(e))
        case Ok(replicaMD5) =>
          if sourceMD5 == replicaMD5 then r
          else
            match Copy(r.disk, srcFile, target, true)
            case Err(e) => r.(error := Some(e))
            case Ok(d) =>
              assert d.entries[target] != r.disk.entries[target];
              Run(d, r.log + [LogLine(FileUpdated, target)], None)
  }

  /** `q` is new in `d`, or holds something else than in `d0`. */
  ghost predicate Changed(d0: Disk, d: Disk, q: Path)
  {
    q in d.entries && (q !in d0.entries || d.entries[q] != d0.entries[q])
  }

  /**
   * What sweep 2 may have done since `r0`: only write files (never over a
   * directory), each on the replica side, and log each one it wrote.
   */
  ghost predicate OnlyCopied(r0: Run, r: Run, src: Path, rep: Path)
    requires |src| > 0 && |rep| > 0
  {
    && r.disk.denied == r0.disk.denied
    && r0.log <= r.log
    && (forall q :: q in r0.disk.entries ==> q in r.disk.entries)
    && (WellFormed(r0.disk) ==> WellFormed(r.disk))
    && (forall q :: Changed(r0.disk, r.disk, q) ==>
          && IsFile(r.disk, q) && !IsDir(r0.disk, q) && IsUnder(rep, q)
          && (q in Logged(r.log[|r0.log|..], FileCopied) || q in Logged(r.log[|r0.log|..], FileUpdated)))
    && (forall l :: l in r.log[|r0.log|..] ==>
          (l.action == FileCopied || l.action == FileUpdated) && IsFile(r.disk, l.path))
    && (Regular(r0.disk, src, rep) ==> forall q :: Changed(r0.disk, r.disk, q) ==>
          IsUnder(rep, q) && PlainRel(q[|rep|..], src, rep) && IsFile(r0.disk, src + q[|rep|..]))
  }

  /** The files of `ps` and their replicas exist, with agreeing digests. */
  ghost predicate CopiedAll(d: Disk, ps: seq<Path>, src: Path, rep: Path, md5: Bytes -> Digest)
    requires |src| > 0
  {
    forall p :: p in ps ==>
      IsFile(d, p) && IsFile(d, Replace(p, src, rep))
      && SameDigest(d.entries[p].data, d.entries[Replace(p, src, rep)].data, md5)
  }

  /** Under a regular disk, distinct source entries have distinct replica paths. */
  lemma MapInjective(d: Disk, src: Path, rep: Path, p1: Path, p2: Path)
    requires Regular(d, src, rep)
    requires p1 in d.entries && IsUnder(src, p1) && p2 in d.entries && IsUnder(src, p2)
    requires Replace(p1, src, rep) == Replace(p2, src, rep)
    ensures p1 == p2
  {
    PlainAt(d, src, rep, p1);
    PlainAt(d, src, rep, p2);
    assert p1[|src|..] == (rep + p1[|src|..])[|rep|..];
    assert p1 == src + p1[|src|..] && p2 == src + p2[|src|..];
  }

  /** Writing one logged file on the replica side keeps `OnlyCopied`. */
  lemma WriteKeeps(r0: Run, r: Run, r': Run, target: Path, data: Node, action: Action, src: Path, rep: Path)
    requires |src| > 0 && |rep| > 0 && OnlyCopied(r0, r, src, rep)
    requires r'.disk == r.disk.(entries := r.disk.entries[target := data]) && data.File?
    requires !IsDir(r.disk, target) && IsUnder(rep, target)
    requires r'.log == r.log + [LogLine(action, target)] && (action == FileCopied || action == FileUpdated)
    requires WellFormed(r.disk) ==> WellFormed(r'.disk)
    requires Regular(r0.disk, src, rep) ==> PlainRel(target[|rep|..], src, rep) && IsFile(r0.disk, src + target[|rep|..])
    ensures OnlyCopied(r0, r', src, rep)
  {
    assert r'.log[|r0.log|..] == r.log[|r0.log|..] + [LogLine(action, target)];
    forall q | Changed(r0.disk, r'.disk, q) && q != target
      ensures Changed(r0.disk, r.disk, q)
    {
    }
    assert IsDir(r0.disk, target) ==> IsDir(r.disk, target);
  }

  /** One iteration of sweep 2 keeps `OnlyCopied`. */
  lemma CopyStepKeeps(r0: Run, r: Run, p: Path, src: Path, rep: Path, md5: Bytes -> Digest)
    requires IsAbsolute(src) && IsAbsolute(rep) && r.error.None?
    requires OnlyCopied(r0, r, src, rep)
    requires IsFile(r0.disk, p) && IsUnder(src, p)
    ensures OnlyCopied(r0, CopyStep(r, p, src, rep, md5), src, rep)
  {
    var r' := CopyStep(r, p, src, rep, md5);
    var target := Replace(p, src, rep);
    MappedUnder(p, src, rep);
    if r'.disk != r.disk || r'.log != r.log {
      assert r'.log == r.log + [LogLine(if IsFile(r.disk, target) then FileUpdated else FileCopied, target)];
      if Regular(r0.disk, src, rep) {
        PlainAt(r0.disk, src, rep, p);
        assert target[|rep|..] == p[|src|..];
        assert src + target[|rep|..] == p;
      }
      WriteKeeps(r0, r, r', target, r.disk.entries[p], if IsFile(r.disk, target) then FileUpdated else FileCopied, src, rep);
    }
  }

  /** Under a regular disk, one iteration of sweep 2 keeps the files already done. */
  lemma CopyStepKeepsDone(r0: Run, r: Run, done: seq<Path>, p: Path, src: Path, rep: Path, md5: Bytes -> Digest)
    requires IsAbsolute(src) && IsAbsolute(rep) && r.error.None? && Regular(r0.disk, src, rep)
    requires OnlyCopied(r0, r, src, rep)
    requires IsFile(r0.disk, p) && IsUnder(src, p) && p !in done
    requires forall q :: q in done ==> IsFile(r0.disk, q) && IsUnder(src, q)
    requires CopiedAll(r.disk, done, src, rep, md5)
    ensures CopyStep(r, p, src, rep, md5).error.None? ==>
              CopiedAll(CopyStep(r, p, src, rep, md5).disk, done + [p], src, rep, md5)
  {
    var r' := CopyStep(r, p, src, rep, md5);
    var target := Replace(p, src, rep);
    if r'.error.None? {
      PlainAt(r0.disk, src, rep, p);
      DisjointSubtrees(src, rep, target);
      assert r.disk.entries[p] == r0.disk.entries[p] by {
        assert !Changed(r0.disk, r.disk, p);
      }
      forall q | q in done
        ensures q != target && Replace(q, src, rep) != target
      {
        if Replace(q, src, rep) == target {
          MapInjective(r0.disk, src, rep, q, p);
        }
      }
      forall q | q in done + [p]
        ensures IsFile(r'.disk, q) && IsFile(r'.disk, Replace(q, src, rep))
        ensures SameDigest(r'.disk.entries[q].data, r'.disk.entries[Replace(q, src, rep)].data, md5)
      {
        if q != p {
          assert q in done;
        }
      }
    }
  }

  /** The state of sweep 2 after the first `i` source files of `files`. */
  ghost predicate CopyProgress(r0: Run, r: Run, files: seq<Path>, i: nat, src: Path, rep: Path, md5: Bytes -> Digest)
    requires |src| > 0 && |rep| > 0
  {
    && i <= |files|
    && OnlyCopied(r0, r, src, rep)
    && (FilesMirrored(r0.disk, src, rep, md5) ==> r.disk == r0.disk && r.log == r0.log)
    && (Regular(r0.disk, src, rep) && r.error.None? ==> CopiedAll(r.disk, files[..i], src, rep, md5))
  }

  /** One iteration of the loop of sweep 2, over a listing without repetitions. */
  lemma CopyIteration(r0: Run, r: Run, files: seq<Path>, i: nat, src: Path, rep: Path, md5: Bytes -> Digest)
    requires IsAbsolute(src) && IsAbsolute(rep) && r.error.None? && i < |files|
    requires forall x :: x in files <==> IsFile(r0.disk, x) && IsUnder(src, x)
    requires forall a, b :: 0 <= a < b < |files| ==> files[a] != files[b]
    requires CopyProgress(r0, r, files, i, src, rep, md5)
    ensures CopyProgress(r0, CopyStep(r, files[i], src, rep, md5), files, i + 1, src, rep, md5)
  {
    var p := files[i];
    assert files[i] in files;
    CopyStepKeeps(r0, r, p, src, rep, md5);
    if Regular(r0.disk, src, rep) {
      assert p !in files[..i];
      assert forall x :: x in files[..i] ==> x in files;
      CopyStepKeepsDone(r0, r, files[..i], p, src, rep, md5);
    }
    PrefixStep(files, i);
  }

  /** A complete, successful sweep 2 mirrors every source file of a regular disk. */
  lemma CopyEnd(r0: Run, r: Run, files: seq<Path>, src: Path, rep: Path, md5: Bytes -> Digest)
    requires IsAbsolute(src) && IsAbsolute(rep) && r.error.None?
    requires forall x :: x in files <==> IsFile(r0.disk, x) && IsUnder(src, x)
    requires CopyProgress(r0, r, files, |files|, src, rep, md5)
    ensures Regular(r0.disk, src, rep) ==>
              && FilesMirrored(r.disk, src, rep, md5) && Regular(r.disk, src, rep)
              && (DirsMirrored(r0.disk, src, rep) ==> DirsMirrored(r.disk, src, rep))
  {
    if Regular(r0.disk, src, rep) {
      assert files[..|files|] == files;
      forall q | Changed(r0.disk, r.disk, q)
        ensures !InSubtree(src, q)
      {
        DisjointSubtrees(src, rep, q);
      }
      forall q | IsDir(r.disk, q)
        ensures IsDir(r0.disk, q)
      {
        assert !Changed(r0.disk, r.disk, q);
      }
      forall p | IsFile(r.disk, p) && IsUnder(src, p)
        ensures p in files
      {
        assert !Changed(r0.disk, r.disk, p);
      }
    }
  }

  /** Lines 143-164: copy every new source file and update every changed one. */
  method CopyFiles(r0: Run, src: Path, rep: Path, md5: Bytes -> Digest) returns (r: Run)
    requires r0.error.None? && IsAbsolute(src) && IsAbsolute(rep)
    ensures OnlyCopied(r0, r, src, rep)
    ensures FilesMirrored(r0.disk, src, rep, md5) ==> r.disk == r0.disk && r.log == r0.log
    ensures Regular(r0.disk, src, rep) && r.error.None? ==>
              && FilesMirrored(r.disk, src, rep, md5) && Regular(r.disk, src, rep)
              && (DirsMirrored(r0.disk, src, rep) ==> DirsMirrored(r.disk, src, rep))
  {
    var listing := ListFiles(r0.disk, src);
    if listing.Err? {
      return r0.(error := Some(listing.error));
    }
    var files := Enumerate(listing.value);
    r := r0;
    var i: nat := 0;
    while i < |files| && r.error.None?
      invariant CopyProgress(r0, r, files, i, src, rep, md5)
    {
      CopyIteration(r0, r, files, i, src, rep, md5);
      r := CopyStep(r, files[i], src, rep, md5);
      i := i + 1;
    }
    if r.error.None? {
      CopyEnd(r0, r, files, src, rep, md5);
    }
  }

  /* ---------------------------------------------------------------------------
   * Sweep 3: orphan directories
   * ------------------------------------------------------------------------- */

  /** The source side of replica directory `q` is not a directory. */
  predicate Orphan(d: Disk, q: Path, src: Path, rep: Path)
    requires |rep| > 0
  {
    !IsDir(d, Replace(q, rep, src))
  }

  /** Lines 169-176: delete `repDir` with its contents unless its source directory exists. */
  function DeleteDirStep(r: Run, repDir: Path, src: Path, rep: Path): (r': Run)
    requires r.error.None? && |rep| > 0
    ensures !Orphan(r.disk, repDir, src, rep) ==> r' == r
    ensures r'.error.Some? ==> r'.disk == r.disk && r'.log == r.log
    ensures Orphan(r.disk, repDir, src, rep) ==>
              (r'.error.None? <==>
                 IsDir(r.disk, repDir) && forall q :: q in r.disk.entries && InSubtree(repDir, q) ==> q !in r.disk.denied)
    ensures Orphan(r.disk, repDir, src, rep) && r'.error.None? ==>
              && Shrinks(r.disk, r'.disk)
              && (forall q :: q in r.disk.entries ==> (q in r'.disk.entries <==> !InSubtree(repDir, q)))
              && r'.log == r.log + [LogLine(DirDeleted, repDir)]
  {
    if !Orphan(r.disk, repDir, src, rep) then r
    else match DeleteDirectory(r.disk, repDir)
      case Err(e) => r.(error := Some(e))
      case Ok(d) => Run(d, r.log + [LogLine(DirDeleted, repDir)], None)
  }

  /**
   * What sweep 3 may have done since `r0`: only remove entries below the
   * replica root, each logged directory having been removed, and under a
   * regular disk only entries that have no source counterpart.
   */
  ghost predicate OnlyDeletedDirs(r0: Run, r: Run, src: Path, rep: Path)
    requires |src| > 0 && |rep| > 0
  {
    && Shrinks(r0.disk, r.disk)
    && r0.log <= r.log
    && (WellFormed(r0.disk) ==> WellFormed(r.disk))
    && (forall q :: q in r0.disk.entries && q !in r.disk.entries ==> IsUnder(rep, q))
    && (forall l :: l in r.log[|r0.log|..] ==>
          l.action == DirDeleted && IsDir(r0.disk, l.path) && IsUnder(rep, l.path) && l.path !in r.disk.entries)
    && (Regular(r0.disk, src, rep) ==> forall q :: q in r0.disk.entries && q !in r.disk.entries ==>
          || (IsDir(r0.disk, q) && !IsDir(r0.disk, src + q[|rep|..]))
          || src + q[|rep|..] !in r0.disk.entries)
  }

  /** Under a regular disk, `Replace` carries a replica entry back to the source side. */
  lemma PlainBack(d: Disk, src: Path, rep: Path, q: Path)
    requires Regular(d, src, rep) && q in d.entries && IsUnder(rep, q)
    ensures Replace(q, rep, src) == src + q[|rep|..]
    ensures IsUnder(src, src + q[|rep|..])
    ensures (src + q[|rep|..])[|src|..] == q[|rep|..]
  {
    MapPlain(q, rep, src);
  }

  /** Entries that sweep 3 has not removed include everything on the source side. */
  lemma SourceSideKept(r0: Run, r: Run, src: Path, rep: Path, p: Path)
    requires Disjoint(src, rep) && OnlyDeletedDirs(r0, r, src, rep)
    requires InSubtree(src, p) && p in r0.disk.entries
    ensures p in r.disk.entries && r.disk.entries[p] == r0.disk.entries[p]
  {
    if p !in r.disk.entries {
      DisjointSubtrees(src, rep, p);
    }
  }

  /** One iteration of sweep 3 keeps `OnlyDeletedDirs`. */
  lemma DeleteDirStepKeeps(r0: Run, r: Run, q: Path, src: Path, rep: Path)
    requires IsAbsolute(src) && IsAbsolute(rep) && r.error.None?
    requires OnlyDeletedDirs(r0, r, src, rep)
    requires IsDir(r0.disk, q) && IsUnder(rep, q)
    ensures OnlyDeletedDirs(r0, DeleteDirStep(r, q, src, rep), src, rep)
  {
    var r' := DeleteDirStep(r, q, src, rep);
    if r'.disk != r.disk || r'.log != r.log {
      assert r'.log[|r0.log|..] == r.log[|r0.log|..] + [LogLine(DirDeleted, q)];
      forall x | x in r.disk.entries && x !in r'.disk.entries
        ensures IsUnder(rep, x)
      {
        if x != q {
          UnderTransitive(rep, q, x);
        }
      }
      if Regular(r0.disk, src, rep) {
        PlainBack(r0.disk, src, rep, q);
        var s := src + q[|rep|..];
        if s in r0.disk.entries {
          SourceSideKept(r0, r, src, rep, s);
        }
        forall x | x in r.disk.entries && x !in r'.disk.entries && x != q
          ensures src + x[|rep|..] !in r0.disk.entries
        {
          RebaseUnder(q, x, rep, src);
          assert IsAncestor(s, src + x[|rep|..]);
        }
      }
    }
  }

  /** Under a regular disk, sweep 3 sees the same orphans in the current disk as at its start. */
  lemma OrphanKept(r0: Run, r: Run, q: Path, src: Path, rep: Path)
    requires Regular(r0.disk, src, rep) && OnlyDeletedDirs(r0, r, src, rep)
    requires q in r0.disk.entries && IsUnder(rep, q)
    ensures Orphan(r.disk, q, src, rep) <==> Orphan(r0.disk, q, src, rep)
  {
    PlainBack(r0.disk, src, rep, q);
    if src + q[|rep|..] in r0.disk.entries {
      SourceSideKept(r0, r, src, rep, src + q[|rep|..]);
    }
  }

  /** A directory below an orphan is an orphan too. */
  lemma OrphanBelow(d: Disk, a: Path, q: Path, src: Path, rep: Path)
    requires Regular(d, src, rep) && a in d.entries && IsUnder(rep, a) && q in d.entries && IsUnder(a, q)
    requires Orphan(d, a, src, rep)
    ensures Orphan(d, q, src, rep)
  {
    UnderTransitive(rep, a, q);
    PlainBack(d, src, rep, a);
    PlainBack(d, src, rep, q);
    RebaseUnder(a, q, rep, src);
    assert IsAncestor(src + a[|rep|..], src + q[|rep|..]);
  }

  /**
   * What sweep 3 has reached after the directories `done`: the kept ones have
   * their source directory, the orphans are gone with their contents, and no
   * orphan has yet been followed by a directory below it.
   */
  ghost predicate PrunedAll(r0: Run, r: Run, done: seq<Path>, src: Path, rep: Path)
    requires |rep| > 0
  {
    && (forall k :: 0 <= k < |done| && done[k] in r.disk.entries ==> IsDir(r.disk, Replace(done[k], rep, src)))
    && (forall k, x :: 0 <= k < |done| && Orphan(r0.disk, done[k], src, rep) && InSubtree(done[k], x) ==>
          x !in r.disk.entries)
    && (forall k, j :: 0 <= k < j < |done| ==> !(Orphan(r0.disk, done[k], src, rep) && IsUnder(done[k], done[j])))
  }

  /** Under a regular disk, one iteration of sweep 3 that succeeds extends `PrunedAll`. */
  lemma DeleteDirStepDone(r0: Run, r: Run, done: seq<Path>, q: Path, src: Path, rep: Path)
    requires IsAbsolute(src) && IsAbsolute(rep) && r.error.None? && Regular(r0.disk, src, rep)
    requires OnlyDeletedDirs(r0, r, src, rep)
    requires IsDir(r0.disk, q) && IsUnder(rep, q)
    requires forall x :: x in done ==> IsDir(r0.disk, x) && IsUnder(rep, x)
    requires PrunedAll(r0, r, done, src, rep)
    ensures DeleteDirStep(r, q, src, rep).error.None? ==>
              PrunedAll(r0, DeleteDirStep(r, q, src, rep), done + [q], src, rep)
  {
    var r' := DeleteDirStep(r, q, src, rep);
    if r'.error.None? {
      DeleteDirStepKeeps(r0, r, q, src, rep);
      OrphanKept(r0, r, q, src, rep);
      var done' := done + [q];
      forall k | 0 <= k < |done'| && done'[k] in r'.disk.entries
        ensures IsDir(r'.disk, Replace(done'[k], rep, src))
      {
        if k < |done| {
          PlainBack(r0.disk, src, rep, done[k]);
          SourceSideKept(r0, r', src, rep, src + done[k][|rep|..]);
        }
      }
      forall k | 0 <= k < |done|
        ensures !(Orphan(r0.disk, done[k], src, rep) && IsUnder(done[k], q))
      {
        if Orphan(r0.disk, done[k], src, rep) && IsUnder(done[k], q) {
          assert done[k] in done;
          OrphanBelow(r0.disk, done[k], q, src, rep);
          assert false;
        }
      }
      assert forall k :: 0 <= k < |done| ==> done'[k] == done[k];
    }
  }

  /** Some orphan replica directory has a directory below it. */
  ghost predicate NestedOrphan(d: Disk, src: Path, rep: Path)
    requires |rep| > 0
  {
    exists a, q :: IsDir(d, a) && IsUnder(rep, a) && Orphan(d, a, src, rep) && IsDir(d, q) && IsUnder(a, q)
  }

  /** What a complete, successful sweep 3 leaves behind on a regular disk. */
  lemma PrunedEnd(r0: Run, r: Run, dirs: seq<Path>, src: Path, rep: Path)
    requires IsAbsolute(src) && IsAbsolute(rep) && Regular(r0.disk, src, rep)
    requires OnlyDeletedDirs(r0, r, src, rep)
    requires forall x :: x in dirs <==> IsDir(r0.disk, x) && IsUnder(rep, x)
    requires PrunedAll(r0, r, dirs, src, rep)
    ensures NoOrphanDirs(r.disk, src, rep) && Regular(r.disk, src, rep)
    ensures DirsMirrored(r0.disk, src, rep) ==> DirsMirrored(r.disk, src, rep)
  {
    forall x | IsDir(r.disk, x) && IsUnder(rep, x)
      ensures IsDir(r.disk, Replace(x, rep, src))
    {
      assert x in dirs;
      var k :| 0 <= k < |dirs| && dirs[k] == x;
    }
    SourceSideKept(r0, r, src, rep, src);
    forall p | IsDir(r0.disk, p) && IsUnder(src, p) && IsDir(r0.disk, Replace(p, src, rep))
      ensures IsDir(r.disk, Replace(p, src, rep))
    {
      PlainAt(r0.disk, src, rep, p);
      var t := rep + p[|src|..];
      assert src + t[|rep|..] == p;
    }
  }

  /** Sweep 3 never removes a replica file whose source file exists. */
  lemma PrunedKeepsFiles(r0: Run, r: Run, src: Path, rep: Path, md5: Bytes -> Digest)
    requires Regular(r0.disk, src, rep) && OnlyDeletedDirs(r0, r, src, rep)
    ensures FilesMirrored(r0.disk, src, rep, md5) ==> FilesMirrored(r.disk, src, rep, md5)
  {
    if FilesMirrored(r0.disk, src, rep, md5) {
      forall p | IsFile(r.disk, p) && IsUnder(src, p)
        ensures IsFile(r.disk, Replace(p, src, rep))
        ensures SameDigest(r.disk.entries[p].data, r.disk.entries[Replace(p, src, rep)].data, md5)
      {
        PlainAt(r0.disk, src, rep, p);
        var t := rep + p[|src|..];
        assert src + t[|rep|..] == p;
      }
    }
  }

  /**
   * A sweep 3 that went through every replica directory, parents first,
   * without an error cannot have met an orphan with a directory below it.
   */
  lemma PrunedNotNested(r0: Run, r: Run, dirs: seq<Path>, src: Path, rep: Path)
    requires Regular(r0.disk, src, rep)
    requires forall x :: x in dirs <==> IsDir(r0.disk, x) && IsUnder(rep, x)
    requires forall i, j :: 0 <= i < |dirs| && 0 <= j < |dirs| && IsUnder(dirs[i], dirs[j]) ==> i < j
    requires PrunedAll(r0, r, dirs, src, rep)
    ensures !NestedOrphan(r0.disk, src, rep)
  {
    if NestedOrphan(r0.disk, src, rep) {
      var a, q :| IsDir(r0.disk, a) && IsUnder(rep, a) && Orphan(r0.disk, a, src, rep) && IsDir(r0.disk, q) && IsUnder(a, q);
      UnderTransitive(rep, a, q);
      assert false;
    }
  }

  /** The state of sweep 3 after the first `i` replica directories of `dirs`. */
  ghost predicate PruneProgress(r0: Run, r: Run, dirs: seq<Path>, i: nat, src: Path, rep: Path)
    requires |src| > 0 && |rep| > 0
  {
    && i <= |dirs|
    && OnlyDeletedDirs(r0, r, src, rep)
    && (NoOrphanDirs(r0.disk, src, rep) ==> r.disk == r0.disk && r.log == r0.log)
    && (Regular(r0.disk, src, rep) && r.error.None? ==> PrunedAll(r0, r, dirs[..i], src, rep))
  }

  /** One iteration of the loop of sweep 3. */
  lemma PruneIteration(r0: Run, r: Run, dirs: seq<Path>, i: nat, src: Path, rep: Path)
    requires IsAbsolute(src) && IsAbsolute(rep) && r.error.None? && i < |dirs|
    requires forall x :: x in dirs <==> IsDir(r0.disk, x) && IsUnder(rep, x)
    requires PruneProgress(r0, r, dirs, i, src, rep)
    ensures PruneProgress(r0, DeleteDirStep(r, dirs[i], src, rep), dirs, i + 1, src, rep)
  {
    var q := dirs[i];
    assert q in dirs;
    DeleteDirStepKeeps(r0, r, q, src, rep);
    if Regular(r0.disk, src, rep) {
      assert forall x :: x in dirs[..i] ==> x in dirs;
      DeleteDirStepDone(r0, r, dirs[..i], q, src, rep);
    }
    PrefixStep(dirs, i);
  }

  /** Lines 166-177: delete every replica directory whose source directory is missing. */
  method DeleteOrphanDirectories(r0: Run, src: Path, rep: Path) returns (r: Run)
    requires r0.error.None? && IsAbsolute(src) && IsAbsolute(rep)
    ensures OnlyDeletedDirs(r0, r, src, rep)
    ensures NoOrphanDirs(r0.disk, src, rep) ==> r.disk == r0.disk && r.log == r0.log
    ensures Regular(r0.disk, src, rep) && r.error.None? ==>
              && NoOrphanDirs(r.disk, src, rep) && Regular(r.disk, src, rep)
              && (DirsMirrored(r0.disk, src, rep) ==> DirsMirrored(r.disk, src, rep))
    ensures Regular(r0.disk, src, rep) && NestedOrphan(r0.disk, src, rep) ==> r.error.Some?
  {
    var listing := ListDirectories(r0.disk, rep);
    if listing.Err? {
      return r0.(error := Some(listing.error));
    }
    var dirs := Enumerate(listing.value);
    r := r0;
    var i: nat := 0;
    while i < |dirs| && r.error.None?
      invariant PruneProgress(r0, r, dirs, i, src, rep)
    {
      PruneIteration(r0, r, dirs, i, src, rep);
      r := DeleteDirStep(r, dirs[i], src, rep);
      i := i + 1;
    }
    if Regular(r0.disk, src, rep) && r.error.None? {
      assert dirs[..i] == dirs;
      PrunedEnd(r0, r, dirs, src, rep);
      PrunedNotNested(r0, r, dirs, src, rep);
    }
  }

  /* ---------------------------------------------------------------------------
   * Sweep 4: orphan files
   * ------------------------------------------------------------------------- */

  /** Lines 181-188: delete `repFile` unless its source file exists. */
  function DeleteFileStep(r: Run, repFile: Path, src: Path, rep: Path): (r': Run)
    requires r.error.None? && |rep| > 0
    ensures IsFile(r.disk, Replace(repFile, rep, src)) ==> r' == r
    ensures r'.error.Some? ==> r'.disk == r.disk && r'.log == r.log
    ensures !IsFile(r.disk, Replace(repFile, rep, src)) ==>
              (r'.error.None? <==>
                 !IsDir(r.disk, repFile) && repFile !in r.disk.denied
                 && forall a :: IsAncestor(a, repFile) ==> IsDir(r.disk, a))
    ensures WellFormed(r.disk) ==> WellFormed(r'.disk)
    ensures !IsFile(r.disk, Replace(repFile, rep, src)) && r'.error.None? ==>
              && Shrinks(r.disk, r'.disk) && repFile !in r'.disk.entries
              && (forall q :: q in r.disk.entries && q != repFile ==> q in r'.disk.entries)
              && r'.log == r.log + [LogLine(FileDeleted, repFile)]
  {
    if IsFile(r.disk, Replace(repFile, rep, src)) then r
    else match DeleteFile(r.disk, repFile)
      case Err(e) => r.(error := Some(e))
      case Ok(d) => Run(d, r.log + [LogLine(FileDeleted, repFile)], None)
  }

  /**
   * What sweep 4 may have done since `r0`: only remove files below the replica
   * root, each one logged, and under a regular disk only files without a
   * source file.
   */
  ghost predicate OnlyDeletedFiles(r0: Run, r: Run, src: Path, rep: Path)
    requires |src| > 0 && |rep| > 0
  {
    && Shrinks(r0.disk, r.disk)
    && r0.log <= r.log
    && (WellFormed(r0.disk) ==> WellFormed(r.disk))
    && (forall q :: q in r0.disk.entries && q !in r.disk.entries ==>
          IsFile(r0.disk, q) && IsUnder(rep, q) && q in Logged(r.log[|r0.log|..], FileDeleted))
    && (forall l :: l in r.log[|r0.log|..] ==>
          l.action == FileDeleted && IsFile(r0.disk, l.path) && l.path !in r.disk.entries)
    && (Regular(r0.disk, src, rep) ==> forall q :: q in r0.disk.entries && q !in r.disk.entries ==>
          !IsFile(r0.disk, src + q[|rep|..]))
  }

  /** Removing one logged replica file keeps `OnlyDeletedFiles`. */
  lemma RemoveFileKeeps(r0: Run, r: Run, r': Run, q: Path, src: Path, rep: Path)
    requires |src| > 0 && |rep| > 0 && OnlyDeletedFiles(r0, r, src, rep)
    requires IsFile(r0.disk, q) && IsUnder(rep, q)
    requires r'.disk == r.disk.(entries := r.disk.entries - {q})
    requires r'.log == r.log + [LogLine(FileDeleted, q)]
    requires WellFormed(r.disk) ==> WellFormed(r'.disk)
    requires Regular(r0.disk, src, rep) ==> !IsFile(r0.disk, src + q[|rep|..])
    ensures OnlyDeletedFiles(r0, r', src, rep)
  {
    assert r'.log[|r0.log|..] == r.log[|r0.log|..] + [LogLine(FileDeleted, q)];
  }

  /** One iteration of sweep 4 keeps `OnlyDeletedFiles`. */
  lemma DeleteFileStepKeeps(r0: Run, r: Run, q: Path, src: Path, rep: Path)
    requires IsAbsolute(src) && IsAbsolute(rep) && r.error.None?
    requires OnlyDeletedFiles(r0, r, src, rep)
    requires IsFile(r0.disk, q) && IsUnder(rep, q)
    ensures OnlyDeletedFiles(r0, DeleteFileStep(r, q, src, rep), src, rep)
  {
    var r' := DeleteFileStep(r, q, src, rep);
    if r'.disk != r.disk || r'.log != r.log {
      assert r'.disk.entries == r.disk.entries - {q};
      if Regular(r0.disk, src, rep) {
        PlainBack(r0.disk, src, rep, q);
        var s := src + q[|rep|..];
        if s in r0.disk.entries && s !in r.disk.entries {
          DisjointSubtrees(src, rep, s);
        }
      }
      RemoveFileKeeps(r0, r, r', q, src, rep);
    }
  }

  /** The files of `done` that are still there have a source file. */
  ghost predicate CleanedAll(r: Run, done: seq<Path>, src: Path, rep: Path)
    requires |rep| > 0
  {
    forall x :: x in done && x in r.disk.entries ==> IsFile(r.disk, Replace(x, rep, src))
  }

  /** Under a regular disk, one iteration of sweep 4 extends `CleanedAll`. */
  lemma DeleteFileStepDone(r0: Run, r: Run, done: seq<Path>, q: Path, src: Path, rep: Path)
    requires IsAbsolute(src) && IsAbsolute(rep) && r.error.None? && Regular(r0.disk, src, rep)
    requires OnlyDeletedFiles(r0, r, src, rep)
    requires IsFile(r0.disk, q) && IsUnder(rep, q)
    requires forall x :: x in done ==> IsFile(r0.disk, x) && IsUnder(rep, x)
    requires CleanedAll(r, done, src, rep)
    ensures DeleteFileStep(r, q, src, rep).error.None? ==>
              CleanedAll(DeleteFileStep(r, q, src, rep), done + [q], src, rep)
  {
    var r' := DeleteFileStep(r, q, src, rep);
    if r'.error.None? {
      DisjointSubtrees(src, rep, q);
      forall x | x in done + [q] && x in r'.disk.entries
        ensures IsFile(r'.disk, Replace(x, rep, src))
      {
        PlainBack(r0.disk, src, rep, x);
      }
    }
  }

  /** A complete, successful sweep 4 leaves no orphan file on a regular disk. */
  lemma CleanedEnd(r0: Run, r: Run, files: seq<Path>, src: Path, rep: Path)
    requires |src| > 0 && |rep| > 0 && OnlyDeletedFiles(r0, r, src, rep)
    requires forall x :: x in files <==> IsFile(r0.disk, x) && IsUnder(rep, x)
    requires CleanedAll(r, files, src, rep)
    ensures NoOrphanFiles(r.disk, src, rep)
  {
    forall x | IsFile(r.disk, x) && IsUnder(rep, x)
      ensures IsFile(r.disk, Replace(x, rep, src))
    {
      assert x in files;
    }
  }

  /** The state of sweep 4 after the first `i` replica files of `files`. */
  ghost predicate CleanProgress(r0: Run, r: Run, files: seq<Path>, i: nat, src: Path, rep: Path)
    requires |src| > 0 && |rep| > 0
  {
    && i <= |files|
    && OnlyDeletedFiles(r0, r, src, rep)
    && (NoOrphanFiles(r0.disk, src, rep) ==> r.disk == r0.disk && r.log == r0.log)
    && (Regular(r0.disk, src, rep) && r.error.None? ==> CleanedAll(r, files[..i], src, rep))
  }

  /** One iteration of the loop of sweep 4. */
  lemma CleanIteration(r0: Run, r: Run, files: seq<Path>, i: nat, src: Path, rep: Path)
    requires IsAbsolute(src) && IsAbsolute(rep) && r.error.None? && i < |files|
    requires forall x :: x in files <==> IsFile(r0.disk, x) && IsUnder(rep, x)
    requires CleanProgress(r0, r, files, i, src, rep)
    ensures CleanProgress(r0, DeleteFileStep(r, files[i], src, rep), files, i + 1, src, rep)
  {
    var q := files[i];
    assert q in files;
    DeleteFileStepKeeps(r0, r, q, src, rep);
    if Regular(r0.disk, src, rep) {
      assert forall x :: x in files[..i] ==> x in files;
      DeleteFileStepDone(r0, r, files[..i], q, src, rep);
    }
    PrefixStep(files, i);
  }

  /** Lines 179-189: delete every replica file whose source file is missing. */
  method DeleteOrphanFiles(r0: Run, src: Path, rep: Path) returns (r: Run)
    requires r0.error.None? && IsAbsolute(src) && IsAbsolute(rep)
    ensures OnlyDeletedFiles(r0, r, src, rep)
    ensures NoOrphanFiles(r0.disk, src, rep) ==> r.disk == r0.disk && r.log == r0.log
    ensures Regular(r0.disk, src, rep) && r.error.None? ==> NoOrphanFiles(r.disk, src, rep)
  {
    var listing := ListFiles(r0.disk, rep);
    if listing.Err? {
      return r0.(error := Some(listing.error));
    }
    var files := Enumerate(listing.value);
    r := r0;
    var i: nat := 0;
    while i < |files| && r.error.None?
      invariant CleanProgress(r0, r, files, i, src, rep)
    {
      CleanIteration(r0, r, files, i, src, rep);
      r := DeleteFileStep(r, files[i], src, rep);
      i := i + 1;
    }
    if Regular(r0.disk, src, rep) && r.error.None? {
      assert files[..i] == files;
      CleanedEnd(r0, r, files, src, rep);
    }
  }

  /** Sweep 4 removes only files, and only replica files without a source file. */
  lemma OrphanFilesEnd(r0: Run, r: Run, src: Path, rep: Path, md5: Bytes -> Digest)
    requires Regular(r0.disk, src, rep) && OnlyDeletedFiles(r0, r, src, rep)
    ensures Regular(r.disk, src, rep)
    ensures DirsMirrored(r0.disk, src, rep) ==> DirsMirrored(r.disk, src, rep)
    ensures NoOrphanDirs(r0.disk, src, rep) ==> NoOrphanDirs(r.disk, src, rep)
    ensures FilesMirrored(r0.disk, src, rep, md5) ==> FilesMirrored(r.disk, src, rep, md5)
  {
    if FilesMirrored(r0.disk, src, rep, md5) {
      forall p | IsFile(r.disk, p) && IsUnder(src, p)
        ensures IsFile(r.disk, Replace(p, src, rep))
      {
        PlainAt(r0.disk, src, rep, p);
        var t := rep + p[|src|..];
        assert src + t[|rep|..] == p;
      }
    }
  }

  /* ---------------------------------------------------------------------------
   * The whole pass
   * ------------------------------------------------------------------------- */

  /**
   * `d'` differs from `d` only inside the replica tree and on the directories
   * above the replica root: nothing else is added, changed or removed.
   */
  ghost predicate Confined(d: Disk, d': Disk, rep: Path)
  {
    && d'.denied == d.denied
    && (forall q :: q in d.entries && !IsUnder(rep, q) ==> q in d'.entries && d'.entries[q] == d.entries[q])
    && (forall q :: q in d'.entries && q !in d.entries ==> InSubtree(rep, q) || IsAncestor(q, rep))
    && (WellFormed(d) ==> WellFormed(d'))
  }

  lemma LogTrans(a: seq<LogLine>, b: seq<LogLine>, c: seq<LogLine>)
    requires a <= b && b <= c
    ensures a <= c
  {
    assert c[..|a|] == c[..|b|][..|a|];
  }

  lemma ConfinedTrans(d: Disk, d': Disk, d'': Disk, rep: Path)
    requires Confined(d, d', rep) && Confined(d', d'', rep)
    ensures Confined(d, d'', rep)
  {
    forall q | q in d''.entries && q !in d.entries
      ensures InSubtree(rep, q) || IsAncestor(q, rep)
    {
      if q in d'.entries && IsUnder(rep, q) {
      }
    }
  }

  /** A pass confined to the replica side never touches the source tree. */
  lemma ConfinedKeepsSource(d: Disk, d': Disk, src: Path, rep: Path)
    requires Disjoint(src, rep) && Confined(d, d', rep)
    ensures forall p :: InSubtree(src, p) ==>
              (p in d'.entries <==> p in d.entries) && (p in d.entries ==> d'.entries[p] == d.entries[p])
  {
    forall p | InSubtree(src, p) && p in d'.entries
      ensures p in d.entries
    {
      if p !in d.entries {
        if IsAncestor(p, rep) {
          if p != src {
            UnderTransitive(src, p, rep);
          }
        } else {
          DisjointSubtrees(src, rep, p);
        }
      }
    }
    forall p | InSubtree(src, p) && p in d.entries
      ensures !IsUnder(rep, p)
    {
      if IsUnder(rep, p) {
        DisjointSubtrees(src, rep, p);
      }
    }
  }

  /** Sweep 1 keeps the disk regular, whether or not it ends with an error. */
  lemma CreatedRegular(r0: Run, r: Run, src: Path, rep: Path)
    requires Regular(r0.disk, src, rep) && OnlyCreated(r0, r, src, rep)
    ensures Regular(r.disk, src, rep)
  {
    forall q | q in r.disk.entries && q !in r0.disk.entries
      ensures !IsUnder(src, q)
    {
      DisjointSubtrees(src, rep, q);
    }
  }

  /** Sweep 2 keeps the disk regular, whether or not it ends with an error. */
  lemma CopiedRegular(r0: Run, r: Run, src: Path, rep: Path)
    requires Regular(r0.disk, src, rep) && OnlyCopied(r0, r, src, rep)
    ensures Regular(r.disk, src, rep)
  {
    forall q | Changed(r0.disk, r.disk, q)
      ensures !IsUnder(src, q)
    {
      DisjointSubtrees(src, rep, q);
    }
    assert !Changed(r0.disk, r.disk, src) && !Changed(r0.disk, r.disk, rep);
  }

  /** Sweep 3 keeps the disk regular, whether or not it ends with an error. */
  lemma PrunedRegular(r0: Run, r: Run, src: Path, rep: Path)
    requires Regular(r0.disk, src, rep) && OnlyDeletedDirs(r0, r, src, rep)
    ensures Regular(r.disk, src, rep)
  {
    SourceSideKept(r0, r, src, rep, src);
  }

  lemma CreatedConfined(r0: Run, r: Run, src: Path, rep: Path)
    requires |src| > 0 && |rep| > 0 && OnlyCreated(r0, r, src, rep)
    ensures Confined(r0.disk, r.disk, rep)
  {
  }

  lemma CopiedConfined(r0: Run, r: Run, src: Path, rep: Path)
    requires |src| > 0 && |rep| > 0 && OnlyCopied(r0, r, src, rep)
    ensures Confined(r0.disk, r.disk, rep)
  {
    forall q | q in r0.disk.entries && !IsUnder(rep, q)
      ensures r.disk.entries[q] == r0.disk.entries[q]
    {
      assert !Changed(r0.disk, r.disk, q);
    }
  }

  /** Under a regular disk, sweeps 1 and 2 neither remove a replica directory nor give an orphan a source. */
  lemma NestedOrphanSurvives(r0: Run, r1: Run, r2: Run, src: Path, rep: Path)
    requires IsAbsolute(src) && IsAbsolute(rep) && Regular(r0.disk, src, rep)
    requires OnlyCreated(r0, r1, src, rep) && OnlyCopied(r1, r2, src, rep)
    requires NestedOrphan(r0.disk, src, rep)
    ensures NestedOrphan(r2.disk, src, rep)
  {
    var a, q :| IsDir(r0.disk, a) && IsUnder(rep, a) && Orphan(r0.disk, a, src, rep) && IsDir(r0.disk, q) && IsUnder(a, q);
    assert !Changed(r1.disk, r2.disk, a) && !Changed(r1.disk, r2.disk, q);
    PlainBack(r0.disk, src, rep, a);
    var s := src + a[|rep|..];
    if s !in r0.disk.entries && s in r1.disk.entries {
      DisjointSubtrees(src, rep, s);
    }
    assert IsDir(r2.disk, s) ==> IsDir(r1.disk, s);
    assert Orphan(r2.disk, a, src, rep);
  }

  /** The sweep that writes a log line with this action, counted from 1. */
  function SweepOf(a: Action): (n: nat)
    ensures 1 <= n <= 4
    ensures n <= 2 <==> a == DirCreated || a == FileCopied || a == FileUpdated
  {
    match a
    case DirCreated => 1
    case FileCopied => 2
    case FileUpdated => 2
    case DirDeleted => 3
    case FileDeleted => 4
  }

  /** The lines come sweep by sweep: no line of a later sweep precedes one of an earlier sweep. */
  ghost predicate InSweepOrder(lines: seq<LogLine>)
  {
    forall i, j :: 0 <= i < j < |lines| ==> SweepOf(lines[i].action) <= SweepOf(lines[j].action)
  }

  /** Every line of the copy phase names an entry still there, of the kind the line says. */
  ghost predicate StillThere(lines: seq<LogLine>, d: Disk)
  {
    forall l :: l in lines ==>
      && (l.action == DirCreated ==> IsDir(d, l.path))
      && (l.action == FileCopied || l.action == FileUpdated ==> IsFile(d, l.path))
  }

  lemma OneSweep(lines: seq<LogLine>, n: nat)
    requires forall l :: l in lines ==> SweepOf(l.action) == n
    ensures InSweepOrder(lines)
  {
    forall i, j | 0 <= i < j < |lines|
      ensures SweepOf(lines[i].action) <= SweepOf(lines[j].action)
    {
      assert lines[i] in lines && lines[j] in lines;
    }
  }

  lemma SweepsConcat(a: seq<LogLine>, b: seq<LogLine>, n: nat)
    requires InSweepOrder(a) && InSweepOrder(b)
    requires forall l :: l in a ==> SweepOf(l.action) <= n
    requires forall l :: l in b ==> n <= SweepOf(l.action)
    ensures InSweepOrder(a + b)
  {
    var c := a + b;
    forall i, j | 0 <= i < j < |c|
      ensures SweepOf(c[i].action) <= SweepOf(c[j].action)
    {
      if j < |a| {
        assert c[i] == a[i] && c[j] == a[j];
      } else if |a| <= i {
        assert c[i] == b[i - |a|] && c[j] == b[j - |a|];
      } else {
        assert c[i] == a[i] && a[i] in a;
        assert c[j] == b[j - |a|] && b[j - |a|] in b;
      }
    }
  }

  /** The lines appended over two stretches are those of the first, then those of the second. */
  lemma LogSplit(x: seq<LogLine>, y: seq<LogLine>, z: seq<LogLine>)
    requires x <= y && y <= z
    ensures x <= z && z[|x|..] == y[|x|..] + z[|y|..]
  {
    LogTrans(x, y, z);
    assert z[..|y|] == y;
  }

  /** The log of a copy phase that ended in sweep 1. */
  lemma CreatedLog(r0: Run, r: Run, src: Path, rep: Path)
    requires |src| > 0 && |rep| > 0 && OnlyCreated(r0, r, src, rep)
    ensures forall l :: l in r.log[|r0.log|..] ==> SweepOf(l.action) == 1
    ensures InSweepOrder(r.log[|r0.log|..]) && StillThere(r.log[|r0.log|..], r.disk)
  {
    OneSweep(r.log[|r0.log|..], 1);
  }

  /** The log of a copy phase that reached sweep 2. */
  lemma CopiedLog(r0: Run, r1: Run, r: Run, src: Path, rep: Path)
    requires |src| > 0 && |rep| > 0 && OnlyCreated(r0, r1, src, rep) && OnlyCopied(r1, r, src, rep)
    ensures r0.log <= r.log
    ensures forall q :: q in r0.disk.entries ==> q in r.disk.entries
    ensures forall l :: l in r.log[|r0.log|..] ==> SweepOf(l.action) <= 2
    ensures InSweepOrder(r.log[|r0.log|..]) && StillThere(r.log[|r0.log|..], r.disk)
  {
    var a, b := r1.log[|r0.log|..], r.log[|r1.log|..];
    LogSplit(r0.log, r1.log, r.log);
    CreatedLog(r0, r1, src, rep);
    OneSweep(b, 2);
    SweepsConcat(a, b, 2);
    forall l | l in a
      ensures IsDir(r.disk, l.path)
    {
      assert !Changed(r1.disk, r.disk, l.path);
    }
  }

  /** The log of a delete phase that ended in sweep 3. */
  lemma PrunedLog(r0: Run, r: Run, src: Path, rep: Path)
    requires |src| > 0 && |rep| > 0 && OnlyDeletedDirs(r0, r, src, rep)
    ensures forall l :: l in r.log[|r0.log|..] ==> SweepOf(l.action) == 3 && l.path !in r.disk.entries
    ensures InSweepOrder(r.log[|r0.log|..])
  {
    OneSweep(r.log[|r0.log|..], 3);
  }

  /** The log of a delete phase that reached sweep 4. */
  lemma CleanedLog(r0: Run, r3: Run, r: Run, src: Path, rep: Path)
    requires |src| > 0 && |rep| > 0 && OnlyDeletedDirs(r0, r3, src, rep) && OnlyDeletedFiles(r3, r, src, rep)
    ensures r0.log <= r.log
    ensures forall l :: l in r.log[|r0.log|..] ==> 3 <= SweepOf(l.action) && l.path !in r.disk.entries
    ensures InSweepOrder(r.log[|r0.log|..])
  {
    var a, b := r3.log[|r0.log|..], r.log[|r3.log|..];
    LogSplit(r0.log, r3.log, r.log);
    PrunedLog(r0, r3, src, rep);
    OneSweep(b, 4);
    SweepsConcat(a, b, 3);
  }

  /** A source directory whose replica path holds a file. */
  ghost predicate DirOverFile(d: Disk, src: Path, rep: Path)
    requires |src| > 0
  {
    exists p :: IsDir(d, p) && IsUnder(src, p) && IsFile(d, Replace(p, src, rep))
  }

  /** A source file whose replica path holds a directory. */
  ghost predicate FileOverDir(d: Disk, src: Path, rep: Path)
    requires |src| > 0
  {
    exists p :: IsFile(d, p) && IsUnder(src, p) && IsDir(d, Replace(p, src, rep))
  }

  /** The source and the replica disagree on whether some path is a directory or a file. */
  ghost predicate KindClash(d: Disk, src: Path, rep: Path)
    requires |src| > 0
  {
    DirOverFile(d, src, rep) || FileOverDir(d, src, rep)
  }

  /**
   * Sweep 1 keeps a clash, and cannot succeed over a file in the place of a
   * directory: `CreateDirectory` throws on it.
   */
  lemma ClashAfterCreate(r0: Run, r: Run, src: Path, rep: Path)
    requires IsAbsolute(src) && IsAbsolute(rep) && OnlyCreated(r0, r, src, rep)
    requires KindClash(r0.disk, src, rep)
    ensures KindClash(r.disk, src, rep)
    ensures DirOverFile(r0.disk, src, rep) ==> !DirsMirrored(r.disk, src, rep)
  {
    if DirOverFile(r0.disk, src, rep) {
      var p :| IsDir(r0.disk, p) && IsUnder(src, p) && IsFile(r0.disk, Replace(p, src, rep));
      assert IsDir(r.disk, p) && IsFile(r.disk, Replace(p, src, rep));
    } else {
      var p :| IsFile(r0.disk, p) && IsUnder(src, p) && IsDir(r0.disk, Replace(p, src, rep));
      assert IsFile(r.disk, p) && IsDir(r.disk, Replace(p, src, rep));
    }
  }

  /**
   * Sweep 2 keeps a directory in the place of a file, and cannot succeed over
   * it: `File.Copy` throws on a directory target.
   */
  lemma ClashAfterCopy(r0: Run, r: Run, src: Path, rep: Path, md5: Bytes -> Digest)
    requires Regular(r0.disk, src, rep) && OnlyCopied(r0, r, src, rep)
    requires FileOverDir(r0.disk, src, rep)
    ensures FileOverDir(r.disk, src, rep) && !FilesMirrored(r.disk, src, rep, md5)
  {
    var p :| IsFile(r0.disk, p) && IsUnder(src, p) && IsDir(r0.disk, Replace(p, src, rep));
    var t := Replace(p, src, rep);
    assert !Changed(r0.disk, r.disk, t);
    if Changed(r0.disk, r.disk, p) {
      DisjointSubtrees(src, rep, p);
    }
    assert IsFile(r.disk, p) && IsDir(r.disk, t);
  }

  /**
   * Sweeps 1 and 2 (lines 131-164): bring over the missing directories, then
   * the new and changed files.  Sweep 2 runs only when sweep 1 ends without
   * an error.
   */
  method CopyPhase(r0: Run, src: Path, rep: Path, md5: Bytes -> Digest) returns (r: Run)
    requires r0.error.None? && IsAbsolute(src) && IsAbsolute(rep)
    ensures r0.log <= r.log && Confined(r0.disk, r.disk, rep)
    ensures forall q :: q in r0.disk.entries ==> q in r.disk.entries
    ensures forall l :: l in r.log[|r0.log|..] ==> SweepOf(l.action) <= 2
    ensures InSweepOrder(r.log[|r0.log|..]) && StillThere(r.log[|r0.log|..], r.disk)
    ensures DirsMirrored(r0.disk, src, rep) && FilesMirrored(r0.disk, src, rep, md5) ==>
              r.disk == r0.disk && r.log == r0.log
    ensures Regular(r0.disk, src, rep) ==> Regular(r.disk, src, rep)
    ensures Regular(r0.disk, src, rep) && r.error.None? ==>
              DirsMirrored(r.disk, src, rep) && FilesMirrored(r.disk, src, rep, md5)
    ensures Regular(r0.disk, src, rep) && NestedOrphan(r0.disk, src, rep) && r.error.None? ==>
              NestedOrphan(r.disk, src, rep)
    ensures Regular(r0.disk, src, rep) && KindClash(r0.disk, src, rep) ==>
              r.error.Some? && KindClash(r.disk, src, rep)
  {
    var r1 := CreateMissingDirectories(r0, src, rep);
    CreatedConfined(r0, r1, src, rep);
    CreatedLog(r0, r1, src, rep);
    if Regular(r0.disk, src, rep) {
      CreatedRegular(r0, r1, src, rep);
      if KindClash(r0.disk, src, rep) {
        ClashAfterCreate(r0, r1, src, rep);
      }
    }
    r := r1;
    if r1.error.None? {
      r := CopyFiles(r1, src, rep, md5);
      CopiedConfined(r1, r, src, rep);
      ConfinedTrans(r0.disk, r1.disk, r.disk, rep);
      CopiedLog(r0, r1, r, src, rep);
      if Regular(r0.disk, src, rep) {
        CopiedRegular(r1, r, src, rep);
        if KindClash(r0.disk, src, rep) {
          ClashAfterCopy(r1, r, src, rep, md5);
        }
        if NestedOrphan(r0.disk, src, rep) {
          NestedOrphanSurvives(r0, r1, r, src, rep);
        }
      }
    }
  }

  /**
   * Sweeps 3 and 4 (lines 166-189): delete the orphan directories, then the
   * orphan files.  Sweep 4 runs only when sweep 3 ends without an error.
   */
  method DeletePhase(r0: Run, src: Path, rep: Path, md5: Bytes -> Digest) returns (r: Run)
    requires r0.error.None? && IsAbsolute(src) && IsAbsolute(rep)
    ensures r0.log <= r.log && Confined(r0.disk, r.disk, rep)
    ensures forall l :: l in r.log[|r0.log|..] ==> 3 <= SweepOf(l.action) && l.path !in r.disk.entries
    ensures InSweepOrder(r.log[|r0.log|..])
    ensures NoOrphanDirs(r0.disk, src, rep) && NoOrphanFiles(r0.disk, src, rep) ==>
              r.disk == r0.disk && r.log == r0.log
    ensures Regular(r0.disk, src, rep) ==> Regular(r.disk, src, rep)
    ensures Regular(r0.disk, src, rep) && r.error.None? ==>
              && NoOrphanDirs(r.disk, src, rep) && NoOrphanFiles(r.disk, src, rep)
              && (DirsMirrored(r0.disk, src, rep) ==> DirsMirrored(r.disk, src, rep))
              && (FilesMirrored(r0.disk, src, rep, md5) ==> FilesMirrored(r.disk, src, rep, md5))
    ensures Regular(r0.disk, src, rep) && NestedOrphan(r0.disk, src, rep) ==>
              r.error.Some? && forall l :: l in r.log[|r0.log|..] ==> l.action == DirDeleted
  {
    var r3 := DeleteOrphanDirectories(r0, src, rep);
    PrunedLog(r0, r3, src, rep);
    if Regular(r0.disk, src, rep) {
      PrunedRegular(r0, r3, src, rep);
      if r3.error.None? {
        PrunedKeepsFiles(r0, r3, src, rep, md5);
      }
    }
    r := r3;
    if r3.error.None? {
      r := DeleteOrphanFiles(r3, src, rep);
      ConfinedTrans(r0.disk, r3.disk, r.disk, rep);
      CleanedLog(r0, r3, r, src, rep);
      if Regular(r0.disk, src, rep) {
        OrphanFilesEnd(r3, r, src, rep, md5);
      }
    }
  }

  /**
   * `SyncFolder` (lines 127-196): the four sweeps in order; the first error
   * ends the pass, keeping what the sweeps before it did.
   */
  method SyncFolder(disk: Disk, log: seq<LogLine>, src: Path, rep: Path, md5: Bytes -> Digest) returns (r: Run)
    requires IsAbsolute(src) && IsAbsolute(rep)
    ensures log <= r.log && InSweepOrder(r.log[|log|..])
    ensures Confined(disk, r.disk, rep)
    ensures Disjoint(src, rep) ==>
              forall p :: InSubtree(src, p) ==>
                (p in r.disk.entries <==> p in disk.entries) && (p in disk.entries ==> r.disk.entries[p] == disk.entries[p])
    ensures Mirrors(disk, src, rep, md5) ==> r.disk == disk && r.log == log
    ensures Regular(disk, src, rep) ==> Regular(r.disk, src, rep)
    ensures Regular(disk, src, rep) && r.error.None? ==> Mirrors(r.disk, src, rep, md5)
    ensures Regular(disk, src, rep) && NestedOrphan(disk, src, rep) ==>
              r.error.Some? && forall l :: l in r.log[|log|..] ==> l.action != FileDeleted
    ensures Regular(disk, src, rep) && KindClash(disk, src, rep) ==>
              && r.error.Some? && KindClash(r.disk, src, rep)
              && (forall q :: q in disk.entries ==> q in r.disk.entries)
              && (forall l :: l in r.log[|log|..] ==> SweepOf(l.action) <= 2)
              && StillThere(r.log[|log|..], r.disk)
  {
    var r2 := CopyPhase(Run(disk, log, None), src, rep, md5);
    r := r2;
    if r2.error.None? {
      r := DeletePhase(r2, src, rep, md5);
      ConfinedTrans(disk, r2.disk, r.disk, rep);
      LogSplit(log, r2.log, r.log);
      SweepsConcat(r2.log[|log|..], r.log[|r2.log|..], 2);
    }
    if Disjoint(src, rep) {
      ConfinedKeepsSource(disk, r.disk, src, rep);
    }
  }

  /**
   * Two consecutive passes, as line 36 and then the timer of lines 39-42 run
   * them: after a pass without an error the next one finds nothing to do, and
   * a clash between a file and a directory makes every pass fail.
   */
  method SyncTwice(disk: Disk, log: seq<LogLine>, src: Path, rep: Path, md5: Bytes -> Digest)
    returns (first: Run, second: Run)
    requires IsAbsolute(src) && IsAbsolute(rep)
    ensures Regular(disk, src, rep) && first.error.None? ==> second.disk == first.disk && second.log == first.log
    ensures Regular(disk, src, rep) && KindClash(disk, src, rep) ==> first.error.Some? && second.error.Some?
  {
    first := SyncFolder(disk, log, src, rep, md5);
    second := SyncFolder(first.disk, first.log, src, rep, md5);
  }

  /**
   * What `Mirrors` means on a regular disk: the same relative paths are
   * directories and files on both sides, and when the digest function tells
   * contents of the disk's files apart the mirrored files hold the same bytes.
   */
  lemma MirrorsSameTree(d: Disk, src: Path, rep: Path, md5: Bytes -> Digest, rel: string)
    requires Regular(d, src, rep) && Mirrors(d, src, rep, md5)
    requires |rel| > 0 && rel[0] == Sep
    ensures IsDir(d, src + rel) <==> IsDir(d, rep + rel)
    ensures IsFile(d, src + rel) <==> IsFile(d, rep + rel)
    ensures IsFile(d, src + rel) &&
            (forall p, q :: IsFile(d, p) && IsFile(d, q) && md5(d.entries[p].data) == md5(d.entries[q].data) ==>
               d.entries[p] == d.entries[q]) ==>
              d.entries[src + rel] == d.entries[rep + rel]
  {
    var p, q := src + rel, rep + rel;
    assert IsUnder(src, p) && p[|src|..] == rel;
    assert IsUnder(rep, q) && q[|rep|..] == rel;
    if p in d.entries {
      PlainAt(d, src, rep, p);
    }
    if q in d.entries {
      PlainBack(d, src, rep, q);
    }
    if IsFile(d, p) {
      DigestStringInjective(md5(d.entries[p].data), md5(d.entries[q].data));
    }
  }
}
