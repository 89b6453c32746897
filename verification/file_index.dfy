/**
 * The file index (`getFileNames`): bare file name -> the locations that carry
 * it, in enumeration order. It is rebuilt wholesale from the editor's file
 * list whenever a file is created or deleted.
 */
module FileIndex {
  import opened Wrappers
  import opened Text
  import opened Tokens

  type Titles = map<string, seq<string>>

  /** `path.substring(1).replaceAll("/", "\\")`. */
  function Normalise(path: string): (r: string)
    ensures |r| == |Drop1(path)|
    ensures forall i :: 0 <= i < |r| ==> r[i] == (if Drop1(path)[i] == '/' then '\\' else Drop1(path)[i])
  {
    var d := Drop1(path);
    seq(|d|, i requires 0 <= i < |d| => if d[i] == '/' then '\\' else d[i])
  }

  /** Where the first `\name.ext` match of the normalised path lies (`path.match(titleRegEx)`). */
  function TitleSpan(path: string): Option<Span>
  {
    FirstMatch(TitlePattern, Normalise(path), 0)
  }

  /** The title of a path: its first `\name.ext` match, without the backslash. */
  function Title(path: string): Option<string>
  {
    match TitleSpan(path)
    case None => None
    case Some(sp) => Some(Normalise(path)[sp.start + 1..sp.end])
  }

  /** A path has no title exactly when its normalised form holds no `\name.ext` match. */
  lemma TitleNone(path: string)
    ensures Title(path).None? <==> forall i: nat, k: nat :: !IsMatch(TitlePattern, Normalise(path), i, k)
  {
    var n := Normalise(path);
    match TitleSpan(path)
    case None =>
      forall i: nat, k: nat ensures !IsMatch(TitlePattern, n, i, k) {
        if i <= |n| {
          MatchEndIsLongest(TitlePattern, n, i);
        }
      }
    case Some(sp) =>
      MatchEndIsLongest(TitlePattern, n, sp.start);
  }

  /** A title is the leftmost match and, at its start, the longest one (greedy, unanchored). */
  lemma TitleIsFirstMatch(path: string)
    requires TitleSpan(path).Some?
    ensures var n, sp := Normalise(path), TitleSpan(path).value;
      Title(path) == Some(n[sp.start + 1..sp.end]) &&
      IsMatch(TitlePattern, n, sp.start, sp.end) &&
      (forall k: nat :: sp.end < k ==> !IsMatch(TitlePattern, n, sp.start, k)) &&
      (forall j: nat, k: nat :: j < sp.start ==> !IsMatch(TitlePattern, n, j, k))
  {
    var n, sp := Normalise(path), TitleSpan(path).value;
    MatchEndIsLongest(TitlePattern, n, sp.start);
    forall j: nat, k: nat | j < sp.start ensures !IsMatch(TitlePattern, n, j, k) {
      MatchEndIsLongest(TitlePattern, n, j);
    }
  }

  /** One step of the loop: the path is appended to its title's bucket, or skipped. */
  function Add(titles: Titles, path: string): Titles
  {
    match Title(path)
    case None => titles
    case Some(t) => titles[t := (if t in titles then titles[t] else []) + [path]]
  }

  /** The index the loop builds from `files`, enumerated in order. */
  function Index(files: seq<string>): Titles
  {
    if files == [] then map[] else Add(Index(files[..|files| - 1]), files[|files| - 1])
  }

  /**
   * Reference definition of one bucket, written independently of the
   * loop: the paths titled `t`, in enumeration order. `IndexBuckets`
   * relates `Index` to it.
   */
  function Bucket(files: seq<string>, t: string): (r: seq<string>)
    ensures forall i :: 0 <= i < |r| ==> r[i] in files && Title(r[i]) == Some(t)
  {
    if files == [] then []
    else
      var last := files[|files| - 1];
      Bucket(files[..|files| - 1], t) + (if Title(last) == Some(t) then [last] else [])
  }

  /**
   * Every titled path lands in exactly the bucket of its own title, buckets
   * keep enumeration order, untitled paths are skipped and no bucket is empty.
   */
  lemma {:induction false} IndexBuckets(files: seq<string>)
    ensures forall t :: t in Index(files) <==> Bucket(files, t) != []
    ensures forall t :: t in Index(files) ==> Index(files)[t] == Bucket(files, t)
  {
    if files != [] {
      IndexBuckets(files[..|files| - 1]);
    }
  }

  lemma IndexOfNothing()
    ensures Index([]) == map[]
  {
  }

  /** `getFileNames(allFiles)`, with each file given by its `path`. */
  method GetFileNames(allFiles: seq<string>) returns (fileTitles: Titles)
    ensures fileTitles == Index(allFiles)
    ensures forall t :: t in fileTitles ==> fileTitles[t] == Bucket(allFiles, t) && fileTitles[t] != []
  {
    fileTitles := map[];
    for n := 0 to |allFiles|
      invariant fileTitles == Index(allFiles[..n])
    {
      var path := allFiles[n];
      assert allFiles[..n + 1][..n] == allFiles[..n] && allFiles[..n + 1][n] == path;
      assert Index(allFiles[..n + 1]) == Add(Index(allFiles[..n]), path);
      ghost var before := fileTitles;
      match Title(path)
      case None =>
        assert Add(fileTitles, path) == fileTitles;
      case Some(t) =>
        assert Add(fileTitles, path) == fileTitles[t := (if t in fileTitles then fileTitles[t] else []) + [path]];
        if t in fileTitles {
          fileTitles := fileTitles[t := fileTitles[t] + [path]];
        } else {
          assert [] + [path] == [path];
          fileTitles := fileTitles[t := [path]];
        }
        assert fileTitles == Add(before, path);
    }
    assert allFiles[..|allFiles|] == allFiles;
    IndexBuckets(allFiles);
  }
}
