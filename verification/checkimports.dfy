/** The import-case checker script: it walks the source tree, and for
    every JavaScript or TypeScript file reports each relative import that
    does not resolve, letter case included, to an entry of the
    filesystem.

    The filesystem is a tree of entries; a path is the sequence of its
    segments below the filesystem root. The imports of a file are given as
    the strings the script's regular expression extracts. */
module CheckImports {
  import opened Domain
  import opened Text
  import opened Seqs

  /** The extensions the script scans and probes, in probing order. */
  const Extensions: seq<string> := [".js", ".jsx", ".ts", ".tsx"]

  /** A directory entry. `Other` stands for entries that are neither
      files nor directories (sockets, pipes, devices). */
  datatype Node =
    | File(name: string, imports: seq<string>)
    | Dir(name: string, children: seq<Node>)
    | Other(name: string)

  /** The entry at `path` below `n`, if the path exists. A path that runs
      through a file does not exist. */
  function Find(n: Node, path: seq<string>): (r: Option<Node>)
    ensures |path| == 0 ==> r == Some(n)
    decreases |path|, 0
  {
    if |path| == 0 then Some(n)
    else match n
      case Dir(_, children) => FindChild(children, path[0], path[1..])
      case _ => None
  }

  function FindChild(children: seq<Node>, name: string, rest: seq<string>): (r: Option<Node>)
    decreases |rest|, |children| + 1
  {
    if |children| == 0 then None
    else if children[0].name == name then Find(children[0], rest)
    else FindChild(children[1..], name, rest)
  }

  function Names(children: seq<Node>): (names: seq<string>)
    ensures |names| == |children|
    ensures forall k :: 0 <= k < |children| ==> names[k] == children[k].name
  {
    seq(|children|, k requires 0 <= k < |children| => children[k].name)
  }

  /** A path split into `path.dirname` and `path.basename`. */
  datatype Location = Location(dir: seq<string>, base: string)

  /** `fileExistsExact`: false when the directory does not exist, else
      whether the base name is among the directory's listed names, compared
      exactly. `None` when the directory path names a file: listing it
      throws, which ends the script. */
  function FileExistsExact(root: Node, loc: Location): (r: Option<bool>)
    ensures Find(root, loc.dir).None? ==> r == Some(false)
    ensures (Find(root, loc.dir).Some? && Find(root, loc.dir).value.Dir?) ==>
      r == Some(loc.base in Names(Find(root, loc.dir).value.children))
    ensures r.None? <==> Find(root, loc.dir).Some? && !Find(root, loc.dir).value.Dir?
  {
    match Find(root, loc.dir)
    case None => Some(false)
    case Some(Dir(_, children)) => Some(loc.base in Names(children))
    case Some(_) => None
  }

  // ---------------------------------------------------------------------
  // Paths

  /** A joined and normalised absolute path. `trailingSlash` records that
      the joined string ended in "/" (which `path.join` keeps). */
  datatype Resolved = Resolved(segments: seq<string>, trailingSlash: bool)

  /** The segment-by-segment normalisation `path.join` applies: empty and
      "." segments vanish, ".." drops the previous segment, and nothing
      climbs above the filesystem root. */
  function Normalize(stack: seq<string>, parts: seq<string>): (r: seq<string>)
    ensures (forall k :: 0 <= k < |stack| ==> stack[k] !in {"", ".", ".."}) ==>
      forall k :: 0 <= k < |r| ==> r[k] !in {"", ".", ".."}
    decreases |parts|
  {
    if |parts| == 0 then stack
    else if parts[0] == "" || parts[0] == "." then Normalize(stack, parts[1..])
    else if parts[0] == ".." then Normalize(if |stack| > 0 then stack[..|stack| - 1] else stack, parts[1..])
    else Normalize(stack + [parts[0]], parts[1..])
  }

  /** A segment that `path.join` keeps as it is. */
  predicate Plain(seg: string)
  {
    seg != "" && seg != "."
  }

  /** Without ".." segments normalising only drops the empty and "."
      segments and appends the rest, in order. */
  lemma {:induction false} NormalizePlain(stack: seq<string>, parts: seq<string>)
    ensures (forall k :: 0 <= k < |parts| ==> parts[k] != "..") ==>
      Normalize(stack, parts) == stack + Filter(parts, Plain)
    decreases |parts|
  {
    if |parts| > 0 && forall k :: 0 <= k < |parts| ==> parts[k] != ".." {
      assert forall k :: 0 <= k < |parts[1..]| ==> parts[1..][k] == parts[k + 1];
      NormalizePlain(stack + [parts[0]], parts[1..]);
      NormalizePlain(stack, parts[1..]);
    }
  }

  /** Normalising a concatenation normalises the second part onto the
      result of the first. */
  lemma {:induction false} NormalizeAppend(stack: seq<string>, a: seq<string>, b: seq<string>)
    ensures Normalize(stack, a + b) == Normalize(Normalize(stack, a), b)
    decreases |a|
  {
    if |a| == 0 {
      assert a + b == b;
    } else {
      assert (a + b)[0] == a[0];
      assert (a + b)[1..] == a[1..] + b;
      var next := if a[0] == "" || a[0] == "." then stack
                  else if a[0] == ".." then (if |stack| > 0 then stack[..|stack| - 1] else stack)
                  else stack + [a[0]];
      NormalizeAppend(next, a[1..], b);
    }
  }

  /** `path.join(dir, importPath)` for an absolute directory. */
  function Resolve(dir: seq<string>, importPath: string): Resolved
  {
    var segments := Normalize(dir, Split(importPath, '/'));
    Resolved(segments, |importPath| > 0 && importPath[|importPath| - 1] == '/' && |segments| > 0)
  }

  /** Joining keeps a clean directory clean, appends the import's segments
      other than "" and "." when it has no "..", and keeps a trailing
      slash unless the result is the filesystem root. */
  lemma ResolveSegments(dir: seq<string>, importPath: string)
    ensures (forall k :: 0 <= k < |dir| ==> dir[k] !in {"", ".", ".."}) ==>
      forall k :: 0 <= k < |Resolve(dir, importPath).segments| ==>
        Resolve(dir, importPath).segments[k] !in {"", ".", ".."}
    ensures (forall k :: 0 <= k < |Split(importPath, '/')| ==> Split(importPath, '/')[k] != "..") ==>
      Resolve(dir, importPath).segments == dir + Filter(Split(importPath, '/'), Plain)
    ensures Resolve(dir, importPath).trailingSlash <==>
      |importPath| > 0 && importPath[|importPath| - 1] == '/' && |Resolve(dir, importPath).segments| > 0
  {
    NormalizePlain(dir, Split(importPath, '/'));
  }

  /** Joining `a + "/" + b` onto a directory lands where joining `a`
      and then `b` does. */
  lemma ResolveJoin(dir: seq<string>, a: string, b: string)
    ensures Resolve(dir, a + "/" + b).segments == Resolve(Resolve(dir, a).segments, b).segments
  {
    assert a + "/" + b == a + ['/'] + b;
    SplitAppend(a, b, '/');
    NormalizeAppend(dir, Split(a, '/'), Split(b, '/'));
  }

  /** A leading ".." segment leaves the directory's last segment, and
      stays at the filesystem root when there is none. */
  lemma ResolveParent(dir: seq<string>, d: string, x: string)
    ensures Resolve(dir + [d], "../" + x).segments == Resolve(dir, x).segments
    ensures Resolve([], "../" + x).segments == Resolve([], x).segments
  {
    assert "../" + x == ".." + ['/'] + x;
    SplitAfterWord("..", x, '/');
    assert (dir + [d])[..|dir + [d]| - 1] == dir;
    assert ([".."] + Split(x, '/'))[1..] == Split(x, '/');
  }

  /** `path.dirname` and `path.basename`; a trailing slash is ignored. */
  function Locate(p: Resolved): (loc: Location)
    ensures |p.segments| > 0 ==> loc.dir + [loc.base] == p.segments
    ensures |p.segments| == 0 ==> loc == Location([], "")
  {
    if |p.segments| == 0 then Location([], "")
    else Location(p.segments[..|p.segments| - 1], p.segments[|p.segments| - 1])
  }

  /** Where `resolvedPath + ext` points: the extension lengthens the base
      name, or after a trailing slash becomes a base name of its own. */
  function Probe(p: Resolved, ext: string): (loc: Location)
    ensures !p.trailingSlash && |p.segments| > 0 ==>
      loc == Location(Locate(p).dir, Locate(p).base + ext)
    ensures p.trailingSlash || |p.segments| == 0 ==> loc.dir == p.segments && loc.base == ext
  {
    if p.trailingSlash || |p.segments| == 0 then Location(p.segments, ext)
    else Location(p.segments[..|p.segments| - 1], p.segments[|p.segments| - 1] + ext)
  }

  /** Index of the last '.' in `s`. */
  function LastDot(s: string): (r: Option<nat>)
    ensures r.Some? ==> r.value < |s| && s[r.value] == '.' && '.' !in s[r.value + 1..]
    ensures r.None? ==> '.' !in s
  {
    if |s| == 0 then None
    else if s[|s| - 1] == '.' then Some(|s| - 1)
    else
      var r := LastDot(s[..|s| - 1]);
      assert s == s[..|s| - 1] + [s[|s| - 1]];
      r
  }

  /** `path.extname` of a base name: from its last '.' on, or "" when it
      has no '.', its only '.' leads the name, or it is "..". */
  function Extname(base: string): (ext: string)
    ensures ext == "" || (ext[0] == '.' && '.' !in ext[1..])
    ensures ext != "" ==> |ext| < |base| && base[|base| - |ext|..] == ext
    ensures '.' !in base ==> ext == ""
  {
    if base == ".." then ""
    else match LastDot(base)
      case None => ""
      case Some(k) => if k == 0 then "" else base[k..]
  }

  /** A name has an extension exactly when it is not ".." and has a '.'
      after its first character; with the clauses above this makes the
      extension the suffix from the last '.'. */
  lemma ExtnameExists(base: string)
    ensures Extname(base) != "" <==> base != ".." && exists k :: 0 < k < |base| && base[k] == '.'
  {
    if base != ".." && LastDot(base) == Some(0) {
      assert forall j :: 0 < j < |base| ==> base[j] == base[1..][j - 1];
    }
  }

  /** Probing a named path lands on a name whose extension is the probed
      one. */
  lemma ProbeExtname(p: Resolved, ext: string)
    requires !p.trailingSlash && |p.segments| > 0 && Locate(p).base != ""
    requires ext in Extensions
    ensures Extname(Probe(p, ext).base) == ext
  {
    var base := Locate(p).base;
    var name := base + ext;
    assert Probe(p, ext).base == name;
    assert ext[0] == '.' && '.' !in ext[1..] && |ext| >= 3;
    assert name[|base|] == '.';
    var r := Extname(name);
    ExtnameExists(name);
    assert r != "";
    assert r == name[|name| - |ext|..];
  }

  // ---------------------------------------------------------------------
  // Checking one import

  /** `path + ext` exists exactly, or definitely does not. */
  ghost predicate Hit(root: Node, p: Resolved, ext: string)
  {
    FileExistsExact(root, Probe(p, ext)) == Some(true)
  }

  ghost predicate Miss(root: Node, p: Resolved, ext: string)
  {
    FileExistsExact(root, Probe(p, ext)) == Some(false)
  }

  /** Some extension hits and every earlier one misses. */
  ghost predicate FirstHit(root: Node, p: Resolved, exts: seq<string>)
  {
    exists k :: 0 <= k < |exts| && Hit(root, p, exts[k]) && forall j :: 0 <= j < k ==> Miss(root, p, exts[j])
  }

  lemma FirstHitTail(root: Node, p: Resolved, exts: seq<string>)
    requires |exts| > 0 && Miss(root, p, exts[0])
    ensures FirstHit(root, p, exts) <==> FirstHit(root, p, exts[1..])
  {
    if FirstHit(root, p, exts) {
      FirstHitDrop(root, p, exts);
    }
    if FirstHit(root, p, exts[1..]) {
      FirstHitKeep(root, p, exts);
    }
  }

  lemma FirstHitDrop(root: Node, p: Resolved, exts: seq<string>)
    requires |exts| > 0 && Miss(root, p, exts[0]) && FirstHit(root, p, exts)
    ensures FirstHit(root, p, exts[1..])
  {
    var k :| 0 <= k < |exts| && Hit(root, p, exts[k]) && forall j :: 0 <= j < k ==> Miss(root, p, exts[j]);
    if k == 0 {
      assert false;
    }
    var t := exts[1..];
    assert t[k - 1] == exts[k];
    assert Hit(root, p, t[k - 1]);
    assert forall j :: 0 <= j < k - 1 ==> t[j] == exts[j + 1];
    assert forall j :: 0 <= j < k - 1 ==> Miss(root, p, t[j]);
  }

  lemma FirstHitKeep(root: Node, p: Resolved, exts: seq<string>)
    requires |exts| > 0 && Miss(root, p, exts[0]) && FirstHit(root, p, exts[1..])
    ensures FirstHit(root, p, exts)
  {
    var t := exts[1..];
    var k :| 0 <= k < |t| && Hit(root, p, t[k]) && forall j :: 0 <= j < k ==> Miss(root, p, t[j]);
    assert exts[k + 1] == t[k];
    assert Hit(root, p, exts[k + 1]);
    assert forall j :: 1 <= j < k + 1 ==> exts[j] == t[j - 1];
    assert forall j :: 0 <= j < k + 1 ==> Miss(root, p, exts[j]);
  }

  /** `EXTENSIONS.some(ext => fileExistsExact(resolvedPath + ext))`, which
      stops at the first hit. */
  function ProbeAny(root: Node, p: Resolved, exts: seq<string>): (r: Option<bool>)
    ensures r == Some(false) <==> forall k :: 0 <= k < |exts| ==> Miss(root, p, exts[k])
    ensures r == Some(true) <==> FirstHit(root, p, exts)
  {
    if |exts| == 0 then Some(false)
    else match FileExistsExact(root, Probe(p, exts[0]))
      case None => None
      case Some(true) =>
        assert Hit(root, p, exts[0]);
        Some(true)
      case Some(false) =>
        FirstHitTail(root, p, exts);
        assert forall k :: 1 <= k < |exts| ==> exts[k] == exts[1..][k - 1];
        ProbeAny(root, p, exts[1..])
  }

  predicate IsRelative(importPath: string)
  {
    StartsWith(importPath, ".") || StartsWith(importPath, "/")
  }

  /** Whether the script reports `importPath` seen in a file of directory
      `dir`: `Some(true)` for a mismatch, `None` when the check ends the
      script. */
  function CheckImport(root: Node, dir: seq<string>, importPath: string): Option<bool>
  {
    if !IsRelative(importPath) then Some(false)
    else
      var p := Resolve(dir, importPath);
      match FileExistsExact(root, Locate(p))
      case None => None
      case Some(exact) =>
        if !exact && Extname(Locate(p).base) !in Extensions then
          match ProbeAny(root, p, Extensions)
          case None => None
          case Some(found) => Some(!found)
        else
          Some(!exact)
  }

  /** The cases of `CheckImport`: non-relative imports are never
      reported, an import found as written is not reported, one with a
      listed extension that is not found is, one without is reported
      exactly when no probe finds it, and a check that cannot list a
      directory ends the script. */
  lemma CheckImportCases(root: Node, dir: seq<string>, importPath: string)
    ensures !IsRelative(importPath) ==> CheckImport(root, dir, importPath) == Some(false)
    ensures var p := Resolve(dir, importPath);
      var r := CheckImport(root, dir, importPath);
      IsRelative(importPath) ==>
        (FileExistsExact(root, Locate(p)) == Some(true) ==> r == Some(false))
        && (FileExistsExact(root, Locate(p)) == Some(false) && Extname(Locate(p).base) in Extensions ==>
              r == Some(true))
        && (FileExistsExact(root, Locate(p)) == Some(false) && Extname(Locate(p).base) !in Extensions ==>
              (r.Some? <==> ProbeAny(root, p, Extensions).Some?)
              && (r.Some? ==> r.value == !ProbeAny(root, p, Extensions).value))
        && (FileExistsExact(root, Locate(p)).None? ==> r.None?)
  {
  }

  /** An import without a listed extension that does not exist as written
      is reported exactly when no listed extension completes it (provided
      no probe ends the script). */
  lemma UnextendedImportReported(root: Node, dir: seq<string>, importPath: string)
    requires IsRelative(importPath)
    requires FileExistsExact(root, Locate(Resolve(dir, importPath))) == Some(false)
    requires Extname(Locate(Resolve(dir, importPath)).base) !in Extensions
    requires forall k :: 0 <= k < |Extensions| ==>
      FileExistsExact(root, Probe(Resolve(dir, importPath), Extensions[k])).Some?
    ensures CheckImport(root, dir, importPath) == Some(true) <==>
      forall k :: 0 <= k < |Extensions| ==> Miss(root, Resolve(dir, importPath), Extensions[k])
  {
    CheckImportCases(root, dir, importPath);
  }

  // ---------------------------------------------------------------------
  // Checking one file

  datatype Mismatch = Mismatch(file: seq<string>, importPath: string)

  /** The lines printed, and whether the script ended early. */
  datatype Report = Report(mismatches: seq<Mismatch>, aborted: bool)

  /** `path.dirname` of a file path (a file path is never empty). */
  function DirOf(path: seq<string>): (dir: seq<string>)
    ensures |path| > 0 ==> dir + [path[|path| - 1]] == path
  {
    if |path| == 0 then [] else path[..|path| - 1]
  }

  /** The loop of `checkImports`: the imports of `file` in order, each
      judged by `check` (`Some(true)` prints a line, `None` ends the
      script), stopping at the first that ends the script. */
  function FileReport(file: seq<string>, imports: seq<string>, check: string -> Option<bool>): (r: Report)
    ensures forall m :: m in r.mismatches ==>
      m.file == file && m.importPath in imports && check(m.importPath) == Some(true)
    ensures !r.aborted ==> forall k :: 0 <= k < |imports| ==>
      (check(imports[k]) == Some(true) <==> Mismatch(file, imports[k]) in r.mismatches)
    ensures r.aborted <==> exists k :: 0 <= k < |imports| && check(imports[k]).None?
    decreases |imports|
  {
    if |imports| == 0 then Report([], false)
    else match check(imports[0])
      case None => Report([], true)
      case Some(reported) =>
        var rest := FileReport(file, imports[1..], check);
        assert forall k :: 1 <= k < |imports| ==> imports[k] == imports[1..][k - 1];
        Report((if reported then [Mismatch(file, imports[0])] else []) + rest.mismatches, rest.aborted)
  }

  /** Whether `check` prints a line for an import. */
  function Reports(check: string -> Option<bool>): string -> bool
  {
    imp => check(imp) == Some(true)
  }

  /** The number of leading imports whose check does not end the script. */
  function FirstAbort(imports: seq<string>, check: string -> Option<bool>): (n: nat)
    ensures n <= |imports|
    ensures forall k :: 0 <= k < n ==> check(imports[k]).Some?
    ensures n < |imports| ==> check(imports[n]).None?
    decreases |imports|
  {
    if |imports| == 0 || check(imports[0]).None? then 0
    else
      assert forall k :: 1 <= k < |imports| ==> imports[k] == imports[1..][k - 1];
      1 + FirstAbort(imports[1..], check)
  }

  /** The lines printed for `imports` found in `file`, one each. */
  function Lines(file: seq<string>, imports: seq<string>): (r: seq<Mismatch>)
    ensures |r| == |imports|
    ensures forall k :: 0 <= k < |r| ==> r[k] == Mismatch(file, imports[k])
  {
    seq(|imports|, k requires 0 <= k < |imports| => Mismatch(file, imports[k]))
  }

  /** A file's lines are its reported imports in import order, up to the
      first import whose check ends the script. */
  lemma {:induction false} FileReportInOrder(file: seq<string>, imports: seq<string>, check: string -> Option<bool>)
    ensures FileReport(file, imports, check).mismatches
      == Lines(file, Filter(imports[..FirstAbort(imports, check)], Reports(check)))
    decreases |imports|
  {
    var n := FirstAbort(imports, check);
    if n == 0 {
      assert imports[..n] == [];
    } else {
      var t := imports[1..];
      var m := FirstAbort(t, check);
      var pre := imports[..n];
      var first := if check(imports[0]) == Some(true) then [imports[0]] else [];
      var tail := Filter(t[..m], Reports(check));
      assert FileReport(file, t, check).mismatches == Lines(file, tail) by {
        FileReportInOrder(file, t, check);
      }
      assert FileReport(file, imports, check).mismatches
        == Lines(file, first) + FileReport(file, t, check).mismatches by {
        FileReportStep(file, imports, check);
      }
      assert Filter(pre, Reports(check)) == first + tail by {
        assert n == m + 1;
        assert pre[0] == imports[0] && pre[1..] == t[..m];
        FilterStep(pre, Reports(check));
      }
      LinesAppend(file, first, tail);
    }
  }

  /** One step of the loop over a file's imports. */
  lemma FileReportStep(file: seq<string>, imports: seq<string>, check: string -> Option<bool>)
    requires |imports| > 0 && check(imports[0]).Some?
    ensures FileReport(file, imports, check).mismatches
      == Lines(file, if check(imports[0]) == Some(true) then [imports[0]] else [])
         + FileReport(file, imports[1..], check).mismatches
  {
  }

  lemma LinesAppend(file: seq<string>, a: seq<string>, b: seq<string>)
    ensures Lines(file, a + b) == Lines(file, a) + Lines(file, b)
  {
  }

  /** The import check the script runs for a file in `dir`. */
  function Checker(root: Node, dir: seq<string>): string -> Option<bool>
  {
    imp => CheckImport(root, dir, imp)
  }

  /** `checkImports(filePath)`. */
  function CheckFile(root: Node, file: seq<string>, imports: seq<string>): (r: Report)
    ensures forall m :: m in r.mismatches ==>
      m.file == file && m.importPath in imports && CheckImport(root, DirOf(file), m.importPath) == Some(true)
    ensures !r.aborted ==> forall k :: 0 <= k < |imports| ==>
      (CheckImport(root, DirOf(file), imports[k]) == Some(true) <==> Mismatch(file, imports[k]) in r.mismatches)
    ensures r.aborted <==> exists k :: 0 <= k < |imports| && CheckImport(root, DirOf(file), imports[k]).None?
  {
    FileReport(file, imports, Checker(root, DirOf(file)))
  }

  /** `checkImports` prints the file's reported imports in the order they
      occur, up to the first import whose check ends the script. */
  lemma CheckFileInOrder(root: Node, file: seq<string>, imports: seq<string>)
    ensures var check := Checker(root, DirOf(file));
      CheckFile(root, file, imports).mismatches
        == Lines(file, Filter(imports[..FirstAbort(imports, check)], Reports(check)))
  {
    FileReportInOrder(file, imports, Checker(root, DirOf(file)));
  }

  // ---------------------------------------------------------------------
  // Scanning the tree

  /** A source file the scan hands to `checkImports`. */
  datatype Source = Source(path: seq<string>, imports: seq<string>)

  predicate Selected(name: string)
  {
    Extname(name) in Extensions
  }

  /** `scanFolder`: the entries of a folder in listing order, each
      directory recursively, keeping the files with a listed extension. */
  function Scan(entries: seq<Node>, folder: seq<string>): seq<Source>
    decreases entries
  {
    if |entries| == 0 then []
    else Visit(entries[0], folder) + Scan(entries[1..], folder)
  }

  function Visit(n: Node, folder: seq<string>): seq<Source>
    decreases n
  {
    match n
    case File(name, imports) => if Selected(name) then [Source(folder + [name], imports)] else []
    case Dir(name, children) => Scan(children, folder + [name])
    case Other(_) => []
  }

  /** `src` is a file somewhere in the tree `n`, which sits in `folder`. */
  ghost predicate Under(n: Node, folder: seq<string>, src: Source)
    decreases n
  {
    match n
    case File(name, imports) => src == Source(folder + [name], imports)
    case Dir(name, children) => exists k :: 0 <= k < |children| && Under(children[k], folder + [name], src)
    case Other(_) => false
  }

  ghost predicate UnderAny(entries: seq<Node>, folder: seq<string>, src: Source)
  {
    exists k :: 0 <= k < |entries| && Under(entries[k], folder, src)
  }

  /** The scan hands over exactly the files of the tree whose extension is
      listed, from every directory however deep. */
  lemma {:induction false} ScanComplete(entries: seq<Node>, folder: seq<string>, src: Source)
    ensures src in Scan(entries, folder) <==>
      UnderAny(entries, folder, src) && |src.path| > 0 && Selected(src.path[|src.path| - 1])
    decreases entries
  {
    if |entries| > 0 {
      VisitComplete(entries[0], folder, src);
      ScanComplete(entries[1..], folder, src);
      assert UnderAny(entries, folder, src) <==>
        Under(entries[0], folder, src) || UnderAny(entries[1..], folder, src) by {
        if UnderAny(entries, folder, src) && !Under(entries[0], folder, src) {
          var k :| 0 <= k < |entries| && Under(entries[k], folder, src);
          assert Under(entries[1..][k - 1], folder, src);
        }
        if UnderAny(entries[1..], folder, src) {
          var k :| 0 <= k < |entries[1..]| && Under(entries[1..][k], folder, src);
          assert Under(entries[k + 1], folder, src);
        }
      }
    }
  }

  lemma {:induction false} VisitComplete(n: Node, folder: seq<string>, src: Source)
    ensures src in Visit(n, folder) <==>
      Under(n, folder, src) && |src.path| > 0 && Selected(src.path[|src.path| - 1])
    decreases n
  {
    match n
    case File(name, imports) =>
    case Dir(name, children) =>
      ScanComplete(children, folder + [name], src);
    case Other(_) =>
  }

  /** Every file the scan of `entries` hands over lies below `folder`, in
      the subtree of one of the entries. */
  lemma {:induction false} ScanPrefix(entries: seq<Node>, folder: seq<string>)
    ensures forall k :: 0 <= k < |Scan(entries, folder)| ==>
      var path := Scan(entries, folder)[k].path;
      |path| > |folder| && path[..|folder|] == folder && path[|folder|] in Names(entries)
    decreases entries
  {
    if |entries| > 0 {
      var v, t := Visit(entries[0], folder), Scan(entries[1..], folder);
      VisitPrefix(entries[0], folder);
      ScanPrefix(entries[1..], folder);
      assert forall k :: 0 <= k < |v + t| ==> (v + t)[k] == if k < |v| then v[k] else t[k - |v|];
      assert forall x :: x in Names(entries[1..]) ==> x in Names(entries) by {
        forall x | x in Names(entries[1..])
          ensures x in Names(entries)
        {
          var j :| 0 <= j < |entries[1..]| && Names(entries[1..])[j] == x;
          assert Names(entries)[j + 1] == x;
        }
      }
      assert Names(entries)[0] == entries[0].name;
    }
  }

  /** Every file a visit of `n` hands over lies in `folder`, below `n`'s
      own name. */
  lemma {:induction false} VisitPrefix(n: Node, folder: seq<string>)
    ensures forall k :: 0 <= k < |Visit(n, folder)| ==>
      var path := Visit(n, folder)[k].path;
      |path| > |folder| && path[..|folder|] == folder && path[|folder|] == n.name
    decreases n
  {
    match n
    case File(name, imports) =>
    case Dir(name, children) =>
      var inner := folder + [name];
      var sc := Scan(children, inner);
      assert Visit(n, folder) == sc;
      ScanPrefix(children, inner);
      forall k | 0 <= k < |sc|
        ensures var path := sc[k].path;
          |path| > |folder| && path[..|folder|] == folder && path[|folder|] == n.name
      {
        var path := sc[k].path;
        assert |path| > |inner| && path[..|inner|] == inner;
        assert path[..|folder|] == path[..|inner|][..|folder|];
        assert path[|folder|] == path[..|inner|][|folder|];
      }
    case Other(_) =>
  }

  /** No two entries of a listing share a name. */
  predicate DistinctNames(entries: seq<Node>)
  {
    forall i, j :: 0 <= i < j < |entries| ==> entries[i].name != entries[j].name
  }

  /** Every directory of the tree lists each name once, as a filesystem
      does. */
  predicate WellNamed(n: Node)
    decreases n
  {
    match n
    case Dir(_, children) => DistinctNames(children) && forall k :: 0 <= k < |children| ==> WellNamed(children[k])
    case _ => true
  }

  /** In a tree that lists each name once per directory, the scan hands
      every file over once: no path occurs twice. */
  lemma {:induction false} ScanDistinct(entries: seq<Node>, folder: seq<string>)
    requires DistinctNames(entries)
    requires forall k :: 0 <= k < |entries| ==> WellNamed(entries[k])
    ensures forall i, j :: 0 <= i < j < |Scan(entries, folder)| ==>
      Scan(entries, folder)[i].path != Scan(entries, folder)[j].path
    decreases entries
  {
    if |entries| > 0 {
      var v, t := Visit(entries[0], folder), Scan(entries[1..], folder);
      var r := Scan(entries, folder);
      assert r == v + t;
      VisitDistinct(entries[0], folder);
      ScanDistinct(entries[1..], folder);
      VisitPrefix(entries[0], folder);
      ScanPrefix(entries[1..], folder);
      forall i, j | 0 <= i < |v| <= j < |r|
        ensures r[i].path != r[j].path
      {
        var names := Names(entries[1..]);
        var x := t[j - |v|].path[|folder|];
        var m :| 0 <= m < |names| && names[m] == x;
        assert entries[m + 1].name == x;
        assert r[i].path[|folder|] == entries[0].name;
      }
    }
  }

  lemma {:induction false} VisitDistinct(n: Node, folder: seq<string>)
    requires WellNamed(n)
    ensures forall i, j :: 0 <= i < j < |Visit(n, folder)| ==>
      Visit(n, folder)[i].path != Visit(n, folder)[j].path
    decreases n
  {
    match n
    case File(name, imports) =>
    case Dir(name, children) =>
      ScanDistinct(children, folder + [name]);
    case Other(_) =>
  }

  // ---------------------------------------------------------------------
  // The whole script

  /** Checking files in turn with `report`, stopping after the first one
      whose check ends the script. */
  function AllReport(sources: seq<Source>, report: Source -> Report): (r: Report)
    ensures forall m :: m in r.mismatches ==>
      exists k :: 0 <= k < |sources| && m in report(sources[k]).mismatches
    decreases |sources|
  {
    if |sources| == 0 then Report([], false)
    else
      var first := report(sources[0]);
      if first.aborted then first
      else
        var rest := AllReport(sources[1..], report);
        assert forall k :: 0 <= k < |sources[1..]| ==> sources[1..][k] == sources[k + 1];
        Report(first.mismatches + rest.mismatches, rest.aborted)
  }

  /** The lines each file prints on its own. */
  function FileLines(sources: seq<Source>, report: Source -> Report): (r: seq<seq<Mismatch>>)
    ensures |r| == |sources|
    ensures forall k :: 0 <= k < |r| ==> r[k] == report(sources[k]).mismatches
  {
    seq(|sources|, k requires 0 <= k < |sources| => report(sources[k]).mismatches)
  }

  /** The number of leading files whose check does not end the script. */
  function FirstAbortedFile(sources: seq<Source>, report: Source -> Report): (n: nat)
    ensures n <= |sources|
    ensures forall k :: 0 <= k < n ==> !report(sources[k]).aborted
    ensures n < |sources| ==> report(sources[n]).aborted
    decreases |sources|
  {
    if |sources| == 0 || report(sources[0]).aborted then 0
    else
      assert forall k :: 1 <= k < |sources| ==> sources[k] == sources[1..][k - 1];
      1 + FirstAbortedFile(sources[1..], report)
  }

  /** Checking files in turn ends the script exactly when checking one of
      the files does. */
  lemma {:induction false} AllReportAborts(sources: seq<Source>, report: Source -> Report)
    ensures AllReport(sources, report).aborted <==>
      exists k :: 0 <= k < |sources| && report(sources[k]).aborted
    decreases |sources|
  {
    if |sources| > 0 && !report(sources[0]).aborted {
      var t := sources[1..];
      AllReportAborts(t, report);
      assert forall k :: 0 <= k < |t| ==> t[k] == sources[k + 1];
      if exists k :: 0 <= k < |sources| && report(sources[k]).aborted {
        var k :| 0 <= k < |sources| && report(sources[k]).aborted;
        assert report(t[k - 1]).aborted;
      }
    }
  }

  /** Checking files in turn prints each file's lines in file order, up to
      and including the file whose check ends the script. */
  lemma {:induction false} AllReportInOrder(sources: seq<Source>, report: Source -> Report)
    ensures var n := FirstAbortedFile(sources, report);
      AllReport(sources, report).mismatches
        == Flatten(FileLines(sources, report)[..if n < |sources| then n + 1 else n])
    decreases |sources|
  {
    if |sources| > 0 {
      var t := sources[1..];
      var first := report(sources[0]);
      var lines := FileLines(sources, report);
      if first.aborted {
        assert lines[..1] == [first.mismatches];
        assert Flatten(lines[..1]) == first.mismatches by {
          FlattenStep(lines[..1]);
        }
      } else {
        var m := FirstAbortedFile(t, report);
        var c := if m < |t| then m + 1 else m;
        var rest := AllReport(t, report);
        assert rest.mismatches == Flatten(FileLines(t, report)[..c]) by {
          AllReportInOrder(t, report);
        }
        assert AllReport(sources, report).mismatches == first.mismatches + rest.mismatches;
        assert FirstAbortedFile(sources, report) == m + 1;
        assert Flatten(lines[..c + 1]) == first.mismatches + Flatten(FileLines(t, report)[..c]) by {
          assert lines[..c + 1][0] == first.mismatches;
          assert lines[..c + 1][1..] == FileLines(t, report)[..c];
          FlattenStep(lines[..c + 1]);
        }
      }
    }
  }

  /** The check the script runs on each scanned file. */
  function FileChecker(root: Node): Source -> Report
  {
    (src: Source) => CheckFile(root, src.path, src.imports)
  }

  /** Checking the scanned files in turn, stopping when one ends the script. */
  function CheckAll(root: Node, sources: seq<Source>): (r: Report)
    ensures forall m :: m in r.mismatches ==> exists k :: 0 <= k < |sources| && m.file == sources[k].path
  {
    AllReport(sources, FileChecker(root))
  }

  /** The run prints each scanned file's lines in scan order, up to and
      including the file whose check ends the script. */
  lemma CheckAllInOrder(root: Node, sources: seq<Source>)
    ensures var n := FirstAbortedFile(sources, FileChecker(root));
      CheckAll(root, sources).mismatches
        == Flatten(FileLines(sources, FileChecker(root))[..if n < |sources| then n + 1 else n])
  {
    AllReportInOrder(sources, FileChecker(root));
  }

  lemma {:induction false} ScanPathsNonEmpty(entries: seq<Node>, folder: seq<string>)
    ensures forall k :: 0 <= k < |Scan(entries, folder)| ==> |Scan(entries, folder)[k].path| > 0
  {
    forall k | 0 <= k < |Scan(entries, folder)|
      ensures |Scan(entries, folder)[k].path| > 0
    {
      var src := Scan(entries, folder)[k];
      ScanComplete(entries, folder, src);
    }
  }

  /** The files the scan of the folder at `rootPath` hands over, in scan
      order; none when that folder is missing or not a directory. */
  function ScriptSources(root: Node, rootPath: seq<string>): (sources: seq<Source>)
    ensures forall k :: 0 <= k < |sources| ==> |sources[k].path| > 0
    ensures Find(root, rootPath).Some? && Find(root, rootPath).value.Dir? ==>
      sources == Scan(Find(root, rootPath).value.children, rootPath)
    ensures Find(root, rootPath).Some? && Find(root, rootPath).value.Dir? ==>
      forall src :: src in sources <==>
        UnderAny(Find(root, rootPath).value.children, rootPath, src)
        && |src.path| > 0 && Selected(src.path[|src.path| - 1])
    ensures Find(root, rootPath).None? || !Find(root, rootPath).value.Dir? ==> sources == []
  {
    var found := Find(root, rootPath);
    if found.Some? && found.value.Dir? then
      ScanPathsNonEmpty(found.value.children, rootPath);
      ScanMembers(found.value.children, rootPath);
      Scan(found.value.children, rootPath)
    else []
  }

  lemma ScanMembers(entries: seq<Node>, folder: seq<string>)
    ensures forall src :: src in Scan(entries, folder) <==>
      UnderAny(entries, folder, src) && |src.path| > 0 && Selected(src.path[|src.path| - 1])
  {
    forall src
      ensures src in Scan(entries, folder) <==>
        UnderAny(entries, folder, src) && |src.path| > 0 && Selected(src.path[|src.path| - 1])
    {
      ScanComplete(entries, folder, src);
    }
  }

  /** The whole script: scan the folder at `rootPath` and check what it
      finds. A missing root, or one that is not a directory, ends the
      script before anything is printed. */
  function RunScript(root: Node, rootPath: seq<string>): (r: Report)
    ensures (Find(root, rootPath).None? || !Find(root, rootPath).value.Dir?) ==> r == Report([], true)
    ensures forall m :: m in r.mismatches ==>
      exists k :: 0 <= k < |ScriptSources(root, rootPath)| && m.file == ScriptSources(root, rootPath)[k].path
  {
    var found := Find(root, rootPath);
    if found.Some? && found.value.Dir? then CheckAll(root, ScriptSources(root, rootPath))
    else Report([], true)
  }

  /** The script prints each scanned file's lines in scan order, up to
      and including the file whose check ends the script. */
  lemma RunScriptInOrder(root: Node, rootPath: seq<string>)
    ensures var sources := ScriptSources(root, rootPath);
      var n := FirstAbortedFile(sources, FileChecker(root));
      RunScript(root, rootPath).mismatches
        == Flatten(FileLines(sources, FileChecker(root))[..if n < |sources| then n + 1 else n])
  {
    CheckAllInOrder(root, ScriptSources(root, rootPath));
  }

  /** In a tree that lists each name once per directory, the script checks
      every file once. */
  lemma ScriptSourcesDistinct(root: Node, rootPath: seq<string>)
    requires WellNamed(root)
    ensures forall i, j :: 0 <= i < j < |ScriptSources(root, rootPath)| ==>
      ScriptSources(root, rootPath)[i].path != ScriptSources(root, rootPath)[j].path
  {
    var found := Find(root, rootPath);
    if found.Some? && found.value.Dir? {
      FindWellNamed(root, rootPath);
      ScanDistinct(found.value.children, rootPath);
    }
  }

  lemma {:induction false} FindWellNamed(n: Node, path: seq<string>)
    requires WellNamed(n)
    ensures Find(n, path).Some? ==> WellNamed(Find(n, path).value)
    decreases |path|, 0
  {
    if |path| > 0 && n.Dir? {
      FindChildWellNamed(n.children, path[0], path[1..]);
    }
  }

  lemma {:induction false} FindChildWellNamed(children: seq<Node>, name: string, rest: seq<string>)
    requires forall k :: 0 <= k < |children| ==> WellNamed(children[k])
    ensures FindChild(children, name, rest).Some? ==> WellNamed(FindChild(children, name, rest).value)
    decreases |rest|, |children| + 1
  {
    if |children| > 0 {
      if children[0].name == name {
        FindWellNamed(children[0], rest);
      } else {
        FindChildWellNamed(children[1..], name, rest);
      }
    }
  }

  /** The line `m` is printed for scanned file `src`. */
  predicate Prints(root: Node, src: Source, m: Mismatch)
  {
    m.file == src.path && m.importPath in src.imports
    && CheckImport(root, DirOf(src.path), m.importPath) == Some(true)
  }

  /** Checking files in turn ends the script exactly when checking one of
      them does. */
  lemma CheckAllAborts(root: Node, sources: seq<Source>)
    ensures CheckAll(root, sources).aborted <==>
      exists src: Source :: src in sources && CheckFile(root, src.path, src.imports).aborted
  {
    AllReportAborts(sources, FileChecker(root));
    if exists src: Source :: src in sources && CheckFile(root, src.path, src.imports).aborted {
      var src: Source :| src in sources && CheckFile(root, src.path, src.imports).aborted;
      var k :| 0 <= k < |sources| && sources[k] == src;
      assert FileChecker(root)(sources[k]).aborted;
    }
    if CheckAll(root, sources).aborted {
      var k :| 0 <= k < |sources| && FileChecker(root)(sources[k]).aborted;
      assert CheckFile(root, sources[k].path, sources[k].imports).aborted;
    }
  }

  /** A run over `sources` that is not cut short prints exactly the
      reported imports of those files. */
  lemma CheckAllExact(root: Node, sources: seq<Source>, m: Mismatch)
    requires !CheckAll(root, sources).aborted
    ensures m in CheckAll(root, sources).mismatches <==>
      exists src: Source :: src in sources && Prints(root, src, m)
  {
    AllReportMember(sources, FileChecker(root), m);
    if m in CheckAll(root, sources).mismatches {
      var k :| 0 <= k < |sources| && m in FileChecker(root)(sources[k]).mismatches;
      PrintedLine(root, sources[k], m);
    }
    if exists src: Source :: src in sources && Prints(root, src, m) {
      var src: Source :| src in sources && Prints(root, src, m);
      var k :| 0 <= k < |sources| && sources[k] == src;
      assert !FileChecker(root)(sources[k]).aborted;
      LinePrinted(root, src, m);
      assert m in FileChecker(root)(sources[k]).mismatches;
    }
  }

  /** Without an abort, the lines of a run are the lines of its files. */
  lemma AllReportMember(sources: seq<Source>, report: Source -> Report, m: Mismatch)
    requires !AllReport(sources, report).aborted
    ensures forall k :: 0 <= k < |sources| ==> !report(sources[k]).aborted
    ensures m in AllReport(sources, report).mismatches <==>
      exists k :: 0 <= k < |sources| && m in report(sources[k]).mismatches
  {
    var lines := FileLines(sources, report);
    AllReportAborts(sources, report);
    AllReportInOrder(sources, report);
    assert lines[..|sources|] == lines;
    FlattenMember(lines, m);
  }

  lemma PrintedLine(root: Node, src: Source, m: Mismatch)
    requires m in CheckFile(root, src.path, src.imports).mismatches
    ensures Prints(root, src, m)
  {
  }

  lemma LinePrinted(root: Node, src: Source, m: Mismatch)
    requires !CheckFile(root, src.path, src.imports).aborted && Prints(root, src, m)
    ensures m in CheckFile(root, src.path, src.imports).mismatches
  {
    var j :| 0 <= j < |src.imports| && src.imports[j] == m.importPath;
    assert Mismatch(src.path, src.imports[j]) == m;
  }

  /** For an existing root folder the script ends early exactly when
      checking one of the scanned files does. */
  lemma RunScriptAborts(root: Node, rootPath: seq<string>)
    requires Find(root, rootPath).Some? && Find(root, rootPath).value.Dir?
    ensures RunScript(root, rootPath).aborted <==>
      exists src: Source :: src in ScriptSources(root, rootPath) && CheckFile(root, src.path, src.imports).aborted
  {
    CheckAllAborts(root, ScriptSources(root, rootPath));
  }

  /** A run that is not cut short prints exactly the reported imports of
      the scanned files: each line names a scanned file and one of its
      imports that the check reports, and every such pair is printed. */
  lemma RunScriptExact(root: Node, rootPath: seq<string>, m: Mismatch)
    requires Find(root, rootPath).Some? && Find(root, rootPath).value.Dir?
    requires !RunScript(root, rootPath).aborted
    ensures m in RunScript(root, rootPath).mismatches <==>
      exists src: Source :: src in ScriptSources(root, rootPath) && Prints(root, src, m)
  {
    CheckAllExact(root, ScriptSources(root, rootPath), m);
  }

  /** Every reported import of every selected file under the root folder
      is printed, unless the run is cut short. */
  lemma MismatchesPrinted(root: Node, rootPath: seq<string>, src: Source, imp: string)
    requires Find(root, rootPath).Some? && Find(root, rootPath).value.Dir?
    requires !RunScript(root, rootPath).aborted
    requires UnderAny(Find(root, rootPath).value.children, rootPath, src)
    requires |src.path| > 0 && Selected(src.path[|src.path| - 1])
    requires imp in src.imports && CheckImport(root, DirOf(src.path), imp) == Some(true)
    ensures Mismatch(src.path, imp) in RunScript(root, rootPath).mismatches
  {
    assert src in ScriptSources(root, rootPath);
    assert Prints(root, src, Mismatch(src.path, imp));
    RunScriptExact(root, rootPath, Mismatch(src.path, imp));
  }

  /** Every reported file is a file under the scanned folder with a listed
      extension. */
  lemma ReportedFilesAreScanned(root: Node, rootPath: seq<string>, m: Mismatch)
    requires m in RunScript(root, rootPath).mismatches
    ensures Find(root, rootPath).Some? && Find(root, rootPath).value.Dir?
    ensures |m.file| > 0 && Selected(m.file[|m.file| - 1])
    ensures exists src: Source :: src.path == m.file && UnderAny(Find(root, rootPath).value.children, rootPath, src)
  {
    var children := Find(root, rootPath).value.children;
    var sources := Scan(children, rootPath);
    assert sources == ScriptSources(root, rootPath);
    var k :| 0 <= k < |sources| && sources[k].path == m.file;
    var src := sources[k];
    ScanComplete(children, rootPath, src);
    assert src.path == m.file && UnderAny(children, rootPath, src);
  }
}
