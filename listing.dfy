/**
 * The directory page of the web application (`show_directory`): the
 * entries of a directory split into files and subdirectories, each sorted,
 * the files cut into pages of ten, and the page count.
 */
module Listing {

  /** What `os.path.isfile` / `os.path.isdir` say of a directory entry (neither, for a broken link). */
  datatype Kind = RegularFile | Directory | Other

  /** One name returned by `os.listdir`, with its kind. */
  datatype Entry = Entry(name: string, kind: Kind)

  const PerPage: nat := 10

  // ---------------------------------------------------------------------
  // Python's ordering of strings and `sorted`

  /**
   * `a <= b` on Python strings: code point by code point, a prefix first.
   * It is the lexicographic order: `a` is a prefix of `b`, or the two first
   * differ at a position where `a` has the smaller code point.
   */
  predicate LessEq(a: string, b: string)
    ensures LessEq(a, b) <==> Lexicographic(a, b)
    decreases |a|
  {
    if a == [] then true
    else if b == [] then false
    else
      LexicographicStep(a, b);
      a[0] < b[0] || (a[0] == b[0] && LessEq(a[1..], b[1..]))
  }

  ghost predicate Lexicographic(a: string, b: string) {
    (|a| <= |b| && a == b[..|a|]) ||
    exists i :: 0 <= i < |a| && i < |b| && a[..i] == b[..i] && a[i] < b[i]
  }

  /** Comparing two non-empty strings lexicographically is comparing first characters, then the rests. */
  lemma LexicographicStep(a: string, b: string)
    requires a != [] && b != []
    ensures Lexicographic(a, b) <==>
      a[0] < b[0] || (a[0] == b[0] && Lexicographic(a[1..], b[1..]))
  {
    if a[0] == b[0] {
      LexicographicSameHeadForward(a, b);
      LexicographicSameHeadBackward(a, b);
    } else if a[0] < b[0] {
      assert a[..0] == b[..0];
    }
  }

  lemma LexicographicSameHeadForward(a: string, b: string)
    requires a != [] && b != [] && a[0] == b[0]
    ensures Lexicographic(a, b) ==> Lexicographic(a[1..], b[1..])
  {
    var a', b' := a[1..], b[1..];
    if |a| <= |b| && a == b[..|a|] {
      assert a' == b[..|a|][1..] == b'[..|a'|];
    } else if exists i :: 0 <= i < |a| && i < |b| && a[..i] == b[..i] && a[i] < b[i] {
      var i :| 0 <= i < |a| && i < |b| && a[..i] == b[..i] && a[i] < b[i];
      assert i > 0;
      assert a'[..i - 1] == a[1..i] == b[1..i] == b'[..i - 1];
      assert a'[i - 1] < b'[i - 1];
    }
  }

  lemma LexicographicSameHeadBackward(a: string, b: string)
    requires a != [] && b != [] && a[0] == b[0]
    ensures Lexicographic(a[1..], b[1..]) ==> Lexicographic(a, b)
  {
    var a', b' := a[1..], b[1..];
    if |a'| <= |b'| && a' == b'[..|a'|] {
      assert a == [a[0]] + a' && b[..|a|] == [b[0]] + b'[..|a'|];
    } else if exists i :: 0 <= i < |a'| && i < |b'| && a'[..i] == b'[..i] && a'[i] < b'[i] {
      var i :| 0 <= i < |a'| && i < |b'| && a'[..i] == b'[..i] && a'[i] < b'[i];
      assert a[..i + 1] == [a[0]] + a'[..i] && b[..i + 1] == [b[0]] + b'[..i];
      assert a[i + 1] < b[i + 1];
    }
  }

  lemma {:induction false} LessEqTotal(a: string, b: string)
    ensures LessEq(a, b) || LessEq(b, a)
    decreases |a|
  {
    if a != [] && b != [] && a[0] == b[0] {
      LessEqTotal(a[1..], b[1..]);
    }
  }

  lemma {:induction false} LessEqReflexive(a: string)
    ensures LessEq(a, a)
    decreases |a|
  {
    if a != [] {
      LessEqReflexive(a[1..]);
    }
  }

  lemma {:induction false} LessEqAntisymmetric(a: string, b: string)
    requires LessEq(a, b) && LessEq(b, a)
    ensures a == b
    decreases |a|
  {
    if a != [] {
      LessEqAntisymmetric(a[1..], b[1..]);
      assert a == [a[0]] + a[1..] && b == [b[0]] + b[1..];
    }
  }

  lemma {:induction false} LessEqTransitive(a: string, b: string, c: string)
    requires LessEq(a, b) && LessEq(b, c)
    ensures LessEq(a, c)
    decreases |a|
  {
    if a != [] && a[0] == b[0] && b[0] == c[0] {
      LessEqTransitive(a[1..], b[1..], c[1..]);
    }
  }

  predicate Sorted(s: seq<string>) {
    forall i, j :: 0 <= i < j < |s| ==> LessEq(s[i], s[j])
  }

  /** Insert `x` into a sorted sequence before the first element not below it. */
  function Insert(x: string, s: seq<string>): (r: seq<string>)
    requires Sorted(s)
    ensures Sorted(r)
    ensures multiset(r) == multiset(s) + multiset{x}
    decreases |s|
  {
    if s == [] then [x]
    else if LessEq(x, s[0]) then
      InsertBefore(x, s);
      [x] + s
    else
      LessEqTotal(x, s[0]);
      var rest := Insert(x, s[1..]);
      InsertAfter(x, s, rest);
      assert s == [s[0]] + s[1..];
      [s[0]] + rest
  }

  lemma InsertAfter(x: string, s: seq<string>, rest: seq<string>)
    requires Sorted(s) && s != [] && LessEq(s[0], x)
    requires Sorted(rest) && multiset(rest) == multiset(s[1..]) + multiset{x}
    ensures Sorted([s[0]] + rest)
  {
    forall k | 0 <= k < |rest| ensures LessEq(s[0], rest[k]) {
      assert rest[k] in multiset(rest);
      assert rest[k] == x || rest[k] in multiset(s[1..]);
    }
  }

  lemma InsertBefore(x: string, s: seq<string>)
    requires Sorted(s) && s != [] && LessEq(x, s[0])
    ensures Sorted([x] + s)
  {
    forall j | 1 <= j < |s| + 1 ensures LessEq(([x] + s)[0], ([x] + s)[j]) {
      if j > 1 {
        LessEqTransitive(x, s[0], s[j - 1]);
      }
    }
  }

  /** `sorted(names)`. */
  function Sort(s: seq<string>): (r: seq<string>)
    ensures Sorted(r)
    ensures multiset(r) == multiset(s)
    decreases |s|
  {
    if s == [] then []
    else
      assert s == [s[0]] + s[1..];
      Insert(s[0], Sort(s[1..]))
  }

  /**
   * A sorted arrangement of a collection is unique, so `Sort` agrees with
   * any other sort of the same names, Python's `sorted` included.
   */
  lemma {:induction false} SortedUnique(a: seq<string>, b: seq<string>)
    requires Sorted(a) && Sorted(b) && multiset(a) == multiset(b)
    ensures a == b
    decreases |a|
  {
    assert |a| == |multiset(a)| == |multiset(b)| == |b|;
    if a != [] {
      assert a[0] in multiset(b) && b[0] in multiset(a);
      SortedHeadIsLeast(a, b[0]);
      SortedHeadIsLeast(b, a[0]);
      LessEqAntisymmetric(a[0], b[0]);
      SortedTail(a);
      SortedTail(b);
      SortedUnique(a[1..], b[1..]);
      assert a == [a[0]] + a[1..] && b == [b[0]] + b[1..];
    }
  }

  lemma SortedHeadIsLeast(a: seq<string>, x: string)
    requires Sorted(a) && x in a
    ensures LessEq(a[0], x)
  {
    var i :| 0 <= i < |a| && a[i] == x;
    if i == 0 {
      LessEqReflexive(x);
    }
  }

  lemma SortedTail(a: seq<string>)
    requires Sorted(a) && a != []
    ensures Sorted(a[1..])
    ensures multiset(a[1..]) == multiset(a) - multiset{a[0]}
  {
    assert a == [a[0]] + a[1..];
  }

  // ---------------------------------------------------------------------
  // Files and subdirectories of a listing

  /** `[f for f in os.listdir(path) if os.path.isfile(...)]`. */
  function FileNames(entries: seq<Entry>): (r: seq<string>)
    ensures forall n :: n in r <==> Entry(n, RegularFile) in entries
    decreases |entries|
  {
    if entries == [] then []
    else (if entries[0].kind == RegularFile then [entries[0].name] else []) + FileNames(entries[1..])
  }

  /** `[d for d in os.listdir(path) if os.path.isdir(...)]`. */
  function SubdirNames(entries: seq<Entry>): (r: seq<string>)
    ensures forall n :: n in r <==> Entry(n, Directory) in entries
    decreases |entries|
  {
    if entries == [] then []
    else (if entries[0].kind == Directory then [entries[0].name] else []) + SubdirNames(entries[1..])
  }

  /** The names `os.listdir` returns are pairwise distinct. */
  predicate DistinctNames(entries: seq<Entry>) {
    forall i, j :: 0 <= i < j < |entries| ==> entries[i].name != entries[j].name
  }

  predicate Distinct(s: seq<string>) {
    forall i, j :: 0 <= i < j < |s| ==> s[i] != s[j]
  }

  /** Listing distinct names, each file and each subdirectory is named once. */
  lemma {:induction false} KindNamesDistinct(entries: seq<Entry>)
    requires DistinctNames(entries)
    ensures Distinct(FileNames(entries)) && Distinct(SubdirNames(entries))
    decreases |entries|
  {
    if entries != [] {
      var rest := entries[1..];
      assert DistinctNames(rest) by {
        forall i, j | 0 <= i < j < |rest| ensures rest[i].name != rest[j].name {
          assert rest[i] == entries[i + 1] && rest[j] == entries[j + 1];
        }
      }
      KindNamesDistinct(rest);
      forall n | Entry(n, RegularFile) in rest || Entry(n, Directory) in rest
        ensures n != entries[0].name
      {
        var k :| 0 <= k < |rest| && rest[k].name == n;
        assert rest[k] == entries[k + 1];
      }
    }
  }

  /** A sequence without repeats is as long as the set of its elements. */
  lemma {:induction false} DistinctSize(s: seq<string>)
    requires Distinct(s)
    ensures |set x | x in s| == |s|
    decreases |s|
  {
    if s != [] {
      var t := s[1..];
      assert Distinct(t) by {
        forall i, j | 0 <= i < j < |t| ensures t[i] != t[j] {
          assert t[i] == s[i + 1] && t[j] == s[j + 1];
        }
      }
      DistinctSize(t);
      assert (set x | x in s) == (set x | x in t) + {s[0]} by {
        assert s == [s[0]] + t;
      }
      assert s[0] !in t by {
        forall k | 0 <= k < |t| ensures t[k] != s[0] {
          assert t[k] == s[k + 1];
        }
      }
    }
  }

  /**
   * The page count of a directory is the least number of pages of ten that
   * hold its regular files, each counted once.
   */
  lemma FilePageCount(directory: string, entries: seq<Entry>, page: nat)
    requires DistinctNames(entries)
    ensures |FileNames(entries)| == |set e | e in entries && e.kind == RegularFile :: e.name|
    ensures ShowDirectory(directory, entries, page).totalPages ==
      TotalPages(|set e | e in entries && e.kind == RegularFile :: e.name|)
  {
    var files := FileNames(entries);
    KindNamesDistinct(entries);
    DistinctSize(files);
    assert (set x | x in files) == (set e | e in entries && e.kind == RegularFile :: e.name);
  }

  // ---------------------------------------------------------------------
  // Pages

  /** A Python slice bound: a negative index counts from the end, and the result is clamped to the sequence. */
  function SliceBound(i: int, n: nat): (r: nat)
    ensures r <= n
  {
    if i < 0 then (if i + n < 0 then 0 else i + n) else if i > n then n else i
  }

  /** `s[start:stop]` with Python's rules for negative and out-of-range bounds. */
  function PySlice<T>(s: seq<T>, start: int, stop: int): (r: seq<T>)
    ensures var lo, hi := SliceBound(start, |s|), SliceBound(stop, |s|);
      |r| == (if lo < hi then hi - lo else 0) &&
      forall k :: 0 <= k < |r| ==> r[k] == s[lo + k]
    ensures 0 <= start <= stop <= |s| ==> r == s[start..stop]
  {
    var lo, hi := SliceBound(start, |s|), SliceBound(stop, |s|);
    if lo < hi then s[lo..hi] else []
  }

  function Min(a: int, b: int): int {
    if a <= b then a else b
  }

  /** `files[(page - 1) * per_page:page * per_page]`, for the non-negative page numbers Flask's `int` converter admits. */
  function PageOf(files: seq<string>, page: nat): (r: seq<string>)
    ensures |r| <= PerPage
    ensures page >= 1 ==>
      r == files[Min((page - 1) * PerPage, |files|)..Min(page * PerPage, |files|)]
    ensures page == 0 ==> r == []
  {
    PySlice(files, (page - 1) * PerPage, page * PerPage)
  }

  /** `(len(files) + per_page - 1) // per_page`: the least number of pages of ten that hold n files. */
  function TotalPages(n: nat): (r: nat)
    ensures r * PerPage >= n
    ensures r == 0 || (r - 1) * PerPage < n
  {
    (n + PerPage - 1) / PerPage
  }

  /** What `show_directory` hands to its template. */
  datatype DirectoryView = DirectoryView(
    directory: string,
    subdirs: seq<string>,
    files: seq<string>,
    totalPages: nat,
    currentPage: nat)

  /** The listing computation of `show_directory`, on the entries of the requested directory. */
  function ShowDirectory(directory: string, entries: seq<Entry>, page: nat): (v: DirectoryView)
    ensures Sorted(v.files) && |v.files| <= PerPage
    ensures forall n :: n in v.files ==> Entry(n, RegularFile) in entries
    ensures Sorted(v.subdirs)
    ensures page != 1 ==> v.subdirs == []
    ensures v.files == PageOf(Sort(FileNames(entries)), page)
    ensures v.totalPages == TotalPages(|FileNames(entries)|)
    ensures page == 1 ==> v.subdirs == Sort(SubdirNames(entries))
    ensures v.directory == directory && v.currentPage == page
  {
    var files := Sort(FileNames(entries));
    var subdirs := Sort(SubdirNames(entries));
    assert |files| == |multiset(files)| == |FileNames(entries)|;
    PageSorted(files, page);
    PageWithin(files, page);
    assert forall n :: n in files ==> n in FileNames(entries) by {
      forall n | n in files ensures n in FileNames(entries) {
        assert n in multiset(files);
      }
    }
    DirectoryView(
      directory,
      if page == 1 then subdirs else [],
      PageOf(files, page),
      TotalPages(|files|),
      page)
  }

  lemma PageSorted(files: seq<string>, page: nat)
    requires Sorted(files)
    ensures Sorted(PageOf(files, page))
  {
  }

  lemma PageWithin(files: seq<string>, page: nat)
    ensures forall n :: n in PageOf(files, page) ==> n in files
  {
  }

  // ---------------------------------------------------------------------
  // Properties of pagination

  /** The pages 1..k, one after the other. */
  function Pages(files: seq<string>, k: nat): seq<string>
    decreases k
  {
    if k == 0 then [] else Pages(files, k - 1) + PageOf(files, k)
  }

  lemma {:induction false} PagesArePrefix(files: seq<string>, k: nat)
    ensures Pages(files, k) == files[..Min(k * PerPage, |files|)]
    decreases k
  {
    if k > 0 {
      PagesArePrefix(files, k - 1);
      var a, b := Min((k - 1) * PerPage, |files|), Min(k * PerPage, |files|);
      assert files[..a] + files[a..b] == files[..b];
    }
  }

  /** Reading pages 1 to `total_pages` in order gives back every file, once, in order. */
  lemma PagesCoverAllFiles(files: seq<string>)
    ensures Pages(files, TotalPages(|files|)) == files
  {
    PagesArePrefix(files, TotalPages(|files|));
  }

  /** Any page past the last one is empty, and every page before it is full except possibly the last. */
  lemma PagesPastTheEnd(files: seq<string>, page: nat)
    ensures page > TotalPages(|files|) ==> PageOf(files, page) == []
    ensures 1 <= page < TotalPages(|files|) ==> |PageOf(files, page)| == PerPage
    ensures page == TotalPages(|files|) > 0 ==> |PageOf(files, page)| > 0
  {
  }

  /** File number i of the sorted listing is shown on page i / 10 + 1, at position i % 10. */
  lemma FileOnItsPage(files: seq<string>, i: nat)
    requires i < |files|
    ensures i % PerPage < |PageOf(files, i / PerPage + 1)|
    ensures PageOf(files, i / PerPage + 1)[i % PerPage] == files[i]
  {
  }

  /** The file slice depends only on the files: adding or removing subdirectories changes nothing else. */
  lemma FilesIgnoreSubdirs(d: string, e1: seq<Entry>, e2: seq<Entry>, page: nat)
    requires FileNames(e1) == FileNames(e2)
    ensures ShowDirectory(d, e1, page).files == ShowDirectory(d, e2, page).files
    ensures ShowDirectory(d, e1, page).totalPages == ShowDirectory(d, e2, page).totalPages
  {
  }

  /** Twenty-five files: three pages of 10, 10 and 5, and nothing after them. */
  lemma TwentyFiveFiles(files: seq<string>)
    requires |files| == 25
    ensures TotalPages(|files|) == 3
    ensures PageOf(files, 1) == files[0..10]
    ensures PageOf(files, 2) == files[10..20]
    ensures PageOf(files, 3) == files[20..25]
    ensures PageOf(files, 4) == []
  {
  }

  /** No files: no pages, and the first page shows no files. */
  lemma NoFiles(d: string, entries: seq<Entry>)
    requires FileNames(entries) == []
    ensures ShowDirectory(d, entries, 1).totalPages == 0
    ensures ShowDirectory(d, entries, 1).files == []
  {
  }
}
