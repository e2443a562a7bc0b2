/**
 * The backup naming of backup_manager.py: before a file is overwritten it
 * is renamed to carry its modification date ("x.csv" becomes
 * "x_20220131.csv", or "x_20220131_1.csv" … "x_20220131_4.csv" when that
 * name is taken), names that already carry their date are recognised, and
 * the previous backup of a file is looked up among the files of its folder.
 *
 * The folder is a `Folder` object: its entries in the order a directory scan
 * yields them, each with its name, the 8-digit date its modification time
 * formats to, and that modification time as a number that orders entries.
 * Converting a timestamp into a date is not modelled: both are inputs.
 */
module Backup {
  import opened Wrappers
  import opened Text

  /** A directory entry: its name, the date (YYYYMMDD) of its last modification and that time itself. */
  datatype Entry = Entry(name: string, date: string, mtime: int)

  /** Eight decimal digits: a date as `strftime("%Y%m%d")` writes it. */
  predicate IsDate(d: string)
  {
    |d| == 8 && forall k :: 0 <= k < 8 ==> IsDigit(d[k])
  }

  /** The position of the last path separator ('/' or '\'), or -1 when there is none. */
  function LastSeparator(path: string): (p: int)
    ensures -1 <= p < |path|
    ensures p >= 0 ==> path[p] == '/' || path[p] == '\\'
    ensures forall k :: p < k < |path| ==> path[k] != '/' && path[k] != '\\'
  {
    var a := RFind(path, '/');
    var b := RFind(path, '\\');
    assert forall k :: a < k < |path| ==> path[k] != '/' by {
      forall k | a < k < |path| ensures path[k] != '/' {
        RFindLast(path, '/', k);
      }
    }
    assert forall k :: b < k < |path| ==> path[k] != '\\' by {
      forall k | b < k < |path| ensures path[k] != '\\' {
        RFindLast(path, '\\', k);
      }
    }
    if a > b then a else b
  }

  /** `os.path.basename`: the part of the path after its last separator. */
  function Basename(path: string): (b: string)
    ensures |b| <= |path| && b == path[|path| - |b|..]
    ensures '/' !in b && '\\' !in b
    ensures '/' !in path && '\\' !in path ==> b == path
  {
    var p := LastSeparator(path);
    var b := path[p + 1..];
    assert forall k :: 0 <= k < |b| ==> b[k] != '/' && b[k] != '\\' by {
      forall k | 0 <= k < |b| ensures b[k] != '/' && b[k] != '\\' {
        assert b[k] == path[p + 1 + k];
      }
    }
    assert p == -1 ==> b == path;
    b
  }

  /** The names of the entries. */
  function NamesOf(es: seq<Entry>): set<string>
  {
    set k | 0 <= k < |es| :: es[k].name
  }

  /** No two entries of a folder share a name. */
  predicate UniqueNames(es: seq<Entry>)
  {
    forall j, k :: 0 <= j < k < |es| ==> es[j].name != es[k].name
  }

  /** The first entry whose name contains `base`, as `get_file_modified_date` scans for it. */
  function FirstMatch(es: seq<Entry>, base: string): (r: Option<nat>)
    ensures r.Some? ==> r.value < |es| && Contains(es[r.value].name, base)
    ensures r.Some? ==> forall j :: 0 <= j < r.value ==> !Contains(es[j].name, base)
    ensures r.None? ==> forall j :: 0 <= j < |es| ==> !Contains(es[j].name, base)
    decreases |es|
  {
    if |es| == 0 then None
    else if Contains(es[0].name, base) then Some(0)
    else
      var rest := FirstMatch(es[1..], base);
      assert forall j :: 1 <= j < |es| ==> es[j] == es[1..][j - 1];
      if rest.None? then None else Some(rest.value + 1)
  }

  /** The first entry whose name contains `base` is the first match. */
  lemma FirstMatchAt(es: seq<Entry>, base: string, k: nat)
    requires k < |es| && Contains(es[k].name, base)
    requires forall j :: 0 <= j < k ==> !Contains(es[j].name, base)
    ensures FirstMatch(es, base) == Some(k)
  {
    var r := FirstMatch(es, base);
    assert r.Some? && r.value <= k;
  }

  /**
   * The date `get_file_modified_date` gives a path: that of the first
   * scanned entry whose name contains the path's basename, which need not be
   * the file itself; empty when no name contains it.
   */
  function ModifiedDate(es: seq<Entry>, path: string): string
  {
    match FirstMatch(es, Basename(path))
    case None => ""
    case Some(k) => es[k].date
  }

  /**
   * The first scanned entry wins even when it is another file: with
   * "ba.csv" scanned before "a.csv", the date of "a.csv" is that of "ba.csv".
   */
  lemma FirstMatchMayBeAnotherFile(es: seq<Entry>, path: string)
    requires path == "a.csv" && |es| == 2
    requires es[0].name == "b" + path && es[1].name == path
    ensures ModifiedDate(es, path) == es[0].date
  {
    assert '/' !in path && '\\' !in path by {
      forall k | 0 <= k < |path| ensures path[k] != '/' && path[k] != '\\' {
      }
    }
    assert es[0].name[1..1 + |path|] == path;
    ContainsAt(es[0].name, path, 1);
  }

  /** `str(count)` for the single-digit counters of the rename loop. */
  function Digit(count: nat): char
    requires count < 10
  {
    ('0' as int + count) as char
  }

  /** The date part of the candidate: the date, followed by "_" and the counter after the first attempt. */
  function Modified(date: string, count: nat): string
    requires count < 10
  {
    if count == 0 then date else date + "_" + [Digit(count)]
  }

  /**
   * Candidate name `count`: the date part is inserted, after a '_', where
   * the last '.' is. With no '.' `rfind` gives -1, and as a slice bound -1
   * stands before the last character.
   */
  function Candidate(f: string, date: string, count: nat): string
    requires count < 10
  {
    var b := SliceBound(|f|, RFind(f, '.'));
    f[..b] + "_" + Modified(date, count) + f[b..]
  }

  /** Without a '.', the date goes before the last character: "data" becomes "dat_20220101a". */
  lemma CandidateWithoutDot(f: string, date: string)
    requires f == "data" && date == "20220101"
    ensures Candidate(f, date, 0) == "dat_20220101a"
  {
    assert '.' !in f;
    assert SliceBound(|f|, RFind(f, '.')) == 3;
  }

  /** The five candidates are pairwise different, so each attempt tries a new name. */
  lemma CandidatesDistinct(f: string, date: string, j: nat, k: nat)
    requires j < 5 && k < 5 && j != k
    ensures Candidate(f, date, j) != Candidate(f, date, k)
  {
    var b := SliceBound(|f|, RFind(f, '.'));
    if j > 0 && k > 0 {
      CounterAt(f[..b], date, Digit(j), f[b..]);
      CounterAt(f[..b], date, Digit(k), f[b..]);
    } else {
      assert |Candidate(f, date, j)| != |Candidate(f, date, k)|;
    }
  }

  /** Where the counter digit sits in a candidate. */
  lemma CounterAt(pre: string, date: string, d: char, post: string)
    ensures var c := pre + "_" + (date + "_" + [d]) + post;
      |pre| + |date| + 2 < |c| && c[|pre| + |date| + 2] == d
  {
  }

  /** A candidate is always a new name: it is longer than the original. */
  lemma CandidateDiffers(f: string, date: string, count: nat)
    requires count < 10
    ensures Candidate(f, date, count) != f
  {
    assert |Candidate(f, date, count)| > |f|;
  }

  /** Where `_(\d{8})\.` matches: '_', eight digits, '.'. */
  predicate DateAt(s: string, i: nat)
  {
    i + 10 <= |s| && s[i] == '_' && s[i + 9] == '.' && forall k :: i + 1 <= k < i + 9 ==> IsDigit(s[k])
  }

  /** The leftmost match at or after `i`. */
  function FindDate(s: string, i: nat): (r: Option<nat>)
    ensures r.Some? ==> i <= r.value && DateAt(s, r.value)
    ensures r.Some? ==> forall j :: i <= j < r.value ==> !DateAt(s, j)
    ensures r.None? ==> forall j :: i <= j ==> !DateAt(s, j)
    decreases |s| - i
  {
    if i + 10 > |s| then None
    else if DateAt(s, i) then Some(i)
    else FindDate(s, i + 1)
  }

  /** `re.findall(r'_(\d{8})\.', s)[0]`: the digits of the leftmost match, if there is one. */
  function FirstDateInName(s: string): (r: Option<string>)
    ensures r.Some? ==> exists i: nat :: (DateAt(s, i) && r.value == s[i + 1..i + 9] &&
      forall j: nat :: j < i ==> !DateAt(s, j))
    ensures r.Some? ==> IsDate(r.value)
    ensures r.None? <==> forall i :: !DateAt(s, i)
  {
    match FindDate(s, 0)
    case None => None
    case Some(i) =>
      var d := s[i + 1..i + 9];
      assert forall k :: 0 <= k < 8 ==> d[k] == s[i + 1 + k];
      Some(d)
  }

  /**
   * `file_name_has_modified_date`: the name carries a date and the leftmost
   * one is the date the folder scan gives the path.
   */
  function FileNameHasModifiedDate(es: seq<Entry>, path: string): (r: bool)
    ensures r <==> FirstDateInName(path) == Some(ModifiedDate(es, path))
    ensures r ==> IsDate(ModifiedDate(es, path))
    ensures (forall i :: !DateAt(path, i)) ==> !r
  {
    match FirstDateInName(path)
    case None => false
    case Some(d) => d == ModifiedDate(es, path)
  }

  /** The text holds no match. */
  predicate NoDateIn(s: string)
  {
    forall i: nat :: i < |s| ==> !DateAt(s, i)
  }

  /**
   * A match that starts in the stem cannot run past it when the stem is
   * followed by '_', which is neither a digit nor '.'.
   */
  lemma NoMatchAcross(stem: string, rest: string, i: nat)
    requires NoDateIn(stem) && |rest| > 0 && rest[0] == '_'
    requires i < |stem|
    ensures !DateAt(stem + rest, i)
  {
    var c := stem + rest;
    if i + 10 <= |stem| {
      assert !DateAt(stem, i);
      assert forall k :: 0 <= k < |stem| ==> c[k] == stem[k];
    } else {
      assert c[|stem|] == '_';
    }
  }

  /**
   * The first candidate of a name with an extension, and a stem without a
   * dated part, is recognised as dated: its leftmost match is the date put in.
   */
  lemma DatedCandidate(f: string, date: string)
    requires '.' in f && IsDate(date)
    requires NoDateIn(f[..RFind(f, '.')])
    ensures FirstDateInName(Candidate(f, date, 0)) == Some(date)
  {
    var p := RFind(f, '.');
    var stem := f[..p];
    var rest := "_" + date + f[p..];
    var c := Candidate(f, date, 0);
    assert c == stem + rest;
    assert DateAt(c, |stem|) by {
      assert c[|stem| + 9] == f[p];
      forall k | |stem| + 1 <= k < |stem| + 9 ensures IsDigit(c[k]) {
        assert c[k] == date[k - |stem| - 1];
      }
    }
    forall i: nat | i < |stem| ensures !DateAt(c, i) {
      NoMatchAcross(stem, rest, i);
    }
    assert FirstDateInName(c).Some?;
    var i: nat :| DateAt(c, i) && FirstDateInName(c).value == c[i + 1..i + 9] &&
      forall j: nat :: j < i ==> !DateAt(c, j);
    assert i == |stem|;
    assert c[|stem| + 1..|stem| + 9] == date;
  }

  /**
   * A candidate with a counter is not recognised as dated: after the date
   * comes '_' rather than '.', and the counter is a single digit. Such a
   * file is renamed again by the folder-wide pass.
   */
  lemma CounterCandidateUndated(f: string, date: string, count: nat)
    requires '.' in f && IsDate(date) && 0 < count < 5
    requires NoDateIn(f[..RFind(f, '.')])
    ensures FirstDateInName(Candidate(f, date, count)).None?
  {
    var p := RFind(f, '.');
    var ext := f[p..];
    assert ext[0] == '.' && ext[1..] == f[p + 1..];
    var c := Candidate(f, date, count);
    assert c == f[..p] + ("_" + date + "_" + [Digit(count)] + ext);
    forall i: nat ensures !DateAt(c, i) {
      CounterTailUndated(f[..p], date, Digit(count), ext, i);
    }
  }

  /** No match in a stem without one followed by '_', a date, '_', a digit and an extension with a single '.'. */
  lemma CounterTailUndated(stem: string, date: string, d: char, ext: string, i: nat)
    requires NoDateIn(stem) && IsDate(date) && IsDigit(d)
    requires |ext| > 0 && ext[0] == '.' && '.' !in ext[1..]
    ensures !DateAt(stem + ("_" + date + "_" + [d] + ext), i)
  {
    var rest := "_" + date + "_" + [d] + ext;
    var c := stem + rest;
    var s := |stem|;
    if i < s {
      NoMatchAcross(stem, rest, i);
    } else if i == s {
      assert c[s + 9] == '_';
    } else if i <= s + 8 {
      assert c[i] == date[i - s - 1];
    } else if i == s + 9 {
      assert i + 10 <= |c| ==> c[i + 2] == ext[0];
    } else if i == s + 10 {
      assert c[i] == d;
    } else if i + 10 <= |c| {
      assert c[i + 9] == ext[i + 9 - s - 11];
      assert ext[i + 9 - s - 11] in ext[1..];
    }
  }

  /** The first of the five candidates not already in the folder, from `count` on. */
  function FreeFrom(names: set<string>, f: string, date: string, count: nat): (r: Option<nat>)
    requires count <= 5
    ensures r.Some? ==> count <= r.value < 5 && Candidate(f, date, r.value) !in names
    ensures r.Some? ==> forall j :: count <= j < r.value ==> Candidate(f, date, j) in names
    ensures r.None? ==> forall j :: count <= j < 5 ==> Candidate(f, date, j) in names
    decreases 5 - count
  {
    if count == 5 then None
    else if Candidate(f, date, count) !in names then Some(count)
    else FreeFrom(names, f, date, count + 1)
  }

  /** The entries with `src` renamed to `dst`; everything else, and every date and time, unchanged. */
  function RenameEntry(es: seq<Entry>, src: string, dst: string): (r: seq<Entry>)
    ensures |r| == |es|
    ensures forall k :: 0 <= k < |es| ==> r[k].date == es[k].date && r[k].mtime == es[k].mtime
    ensures forall k :: 0 <= k < |es| ==> r[k].name == if es[k].name == src then dst else es[k].name
  {
    seq(|es|, k requires 0 <= k < |es| => if es[k].name == src then es[k].(name := dst) else es[k])
  }

  /** Renaming to a free name keeps the names unique and swaps `src` for `dst` in the name set. */
  lemma RenameKeepsUnique(es: seq<Entry>, src: string, dst: string)
    requires UniqueNames(es) && src in NamesOf(es) && dst !in NamesOf(es)
    ensures UniqueNames(RenameEntry(es, src, dst))
    ensures NamesOf(RenameEntry(es, src, dst)) == NamesOf(es) - {src} + {dst}
  {
    var r := RenameEntry(es, src, dst);
    forall j, k | 0 <= j < k < |r| ensures r[j].name != r[k].name {
      assert es[j].name in NamesOf(es) && es[k].name in NamesOf(es);
    }
    var i :| 0 <= i < |es| && es[i].name == src;
    forall x | x in NamesOf(es) - {src} + {dst} ensures x in NamesOf(r) {
      if x == dst {
        assert r[i].name == dst;
      } else {
        var k :| 0 <= k < |es| && es[k].name == x;
        assert r[k].name == x;
      }
    }
    forall x | x in NamesOf(r) ensures x in NamesOf(es) - {src} + {dst} {
      var k :| 0 <= k < |r| && r[k].name == x;
      if es[k].name != src {
        assert es[k].name in NamesOf(es);
      }
    }
  }

  /** The folder holding the file: its entries in scan order. */
  class Folder {
    var entries: seq<Entry>

    /** Names in a folder are unique. */
    predicate Valid()
      reads this
    {
      UniqueNames(entries)
    }

    function Names(): set<string>
      reads this
    {
      NamesOf(entries)
    }

    constructor (entries: seq<Entry>)
      requires UniqueNames(entries)
      ensures Valid() && this.entries == entries
    {
      this.entries := entries;
    }

    /**
     * `os.rename(src, dst)` where the existing target is an error
     * (`FileExistsError`): renames and answers true when `dst` is free,
     * changes nothing and answers false otherwise.
     */
    method Rename(src: string, dst: string) returns (ok: bool)
      requires Valid() && src in Names()
      modifies this
      ensures Valid()
      ensures ok == (dst !in old(Names()))
      ensures entries == if ok then RenameEntry(old(entries), src, dst) else old(entries)
    {
      if dst in NamesOf(entries) {
        ok := false;
      } else {
        RenameKeepsUnique(entries, src, dst);
        entries := RenameEntry(entries, src, dst);
        ok := true;
      }
    }

    /**
     * `to_csv(name)`: the file now exists with the given date and time; an
     * existing file of that name is overwritten, otherwise a new entry appears.
     */
    method Write(name: string, date: string, mtime: int)
      requires Valid()
      modifies this
      ensures Valid() && name in Names()
      ensures name in old(Names()) ==> |entries| == |old(entries)|
      ensures name !in old(Names()) ==> entries == old(entries) + [Entry(name, date, mtime)]
      ensures forall k :: 0 <= k < |old(entries)| && old(entries)[k].name != name ==> entries[k] == old(entries)[k]
      ensures forall k :: 0 <= k < |old(entries)| && old(entries)[k].name == name ==> entries[k] == Entry(name, date, mtime)
    {
      if name in NamesOf(entries) {
        var i :| 0 <= i < |entries| && entries[i].name == name;
        entries := entries[i := Entry(name, date, mtime)];
        assert entries[i].name == name;
        forall j, k | 0 <= j < k < |entries| ensures entries[j].name != entries[k].name {
          assert old(entries)[j].name != old(entries)[k].name;
        }
      } else {
        var e := Entry(name, date, mtime);
        forall j, k | 0 <= j < k < |entries| + 1 ensures (entries + [e])[j].name != (entries + [e])[k].name {
          if k == |entries| {
            assert entries[j].name in NamesOf(entries);
          }
        }
        entries := entries + [e];
        assert entries[|entries| - 1].name == name;
      }
    }

    /** `get_file_modified_date`: scans the entries and stops at the first one whose name contains the basename. */
    method GetFileModifiedDate(path: string) returns (date: string)
      ensures date == ModifiedDate(entries, path)
    {
      var base := Basename(path);
      var k := 0;
      while k < |entries|
        invariant 0 <= k <= |entries|
        invariant forall j :: 0 <= j < k ==> !Contains(entries[j].name, base)
      {
        if Contains(entries[k].name, base) {
          FirstMatchAt(entries, base, k);
          return entries[k].date;
        }
        k := k + 1;
      }
      assert FirstMatch(entries, base).None?;
      return "";
    }
  }

  /**
   * `change_file_name_with_modified_date`: tries the five candidates in
   * order and renames the file to the first one not taken. Answers false,
   * leaving the folder as it was, when all five exist.
   */
  method ChangeFileNameWithModifiedDate(folder: Folder, f: string) returns (ok: bool)
    requires folder.Valid() && f in folder.Names()
    modifies folder
    ensures folder.Valid()
    ensures var date := ModifiedDate(old(folder.entries), f);
      var free := FreeFrom(old(folder.Names()), f, date, 0);
      ok == free.Some? &&
      folder.entries == if ok then RenameEntry(old(folder.entries), f, Candidate(f, date, free.value)) else old(folder.entries)
  {
    var withDate := folder.GetFileModifiedDate(f);
    ghost var names := folder.Names();
    var count := 0;
    while count < 5
      invariant 0 <= count <= 5
      invariant folder.entries == old(folder.entries) && folder.Valid()
      invariant FreeFrom(names, f, withDate, 0) == FreeFrom(names, f, withDate, count)
    {
      var newName := Candidate(f, withDate, count);
      ok := folder.Rename(f, newName);
      if ok {
        return;
      }
      count := count + 1;
    }
    ok := false;
  }

  /**
   * `save_dataframe_to_csv`: writes the file when it does not exist yet, or
   * after the existing file has been moved to a dated name; when no dated
   * name is free nothing is written. `today` and `now` stand for the clock.
   */
  method SaveDataframeToCsv(folder: Folder, f: string, today: string, now: int) returns (written: bool)
    requires folder.Valid()
    modifies folder
    ensures folder.Valid()
    ensures var date := ModifiedDate(old(folder.entries), f);
      var free := FreeFrom(old(folder.Names()), f, date, 0);
      written == (f !in old(folder.Names()) || free.Some?) &&
      folder.entries ==
        if f !in old(folder.Names()) then old(folder.entries) + [Entry(f, today, now)]
        else if free.Some? then RenameEntry(old(folder.entries), f, Candidate(f, date, free.value)) + [Entry(f, today, now)]
        else old(folder.entries)
  {
    if f in folder.Names() {
      ghost var date := ModifiedDate(folder.entries, f);
      ghost var free := FreeFrom(folder.Names(), f, date, 0);
      ghost var before := folder.entries;
      written := ChangeFileNameWithModifiedDate(folder, f);
      if written {
        CandidateDiffers(f, date, free.value);
        RenameKeepsUnique(before, f, Candidate(f, date, free.value));
        folder.Write(f, today, now);
      }
    } else {
      written := true;
      folder.Write(f, today, now);
    }
  }

  /** The entries whose names contain `stem`, in scan order: the keys `files_dict` collects. */
  function Matching(es: seq<Entry>, stem: string): (r: seq<Entry>)
    ensures |r| <= |es|
    ensures forall e :: e in r <==> e in es && Contains(e.name, stem)
    decreases |es|
  {
    if |es| == 0 then []
    else
      var rest := Matching(es[..|es| - 1], stem);
      var last := es[|es| - 1];
      assert es == es[..|es| - 1] + [last];
      if Contains(last.name, stem) then rest + [last] else rest
  }

  /** Scanning one more entry appends it when its name matches. */
  lemma MatchingStep(es: seq<Entry>, k: nat, stem: string)
    requires k < |es|
    ensures Matching(es[..k + 1], stem) ==
      Matching(es[..k], stem) + if Contains(es[k].name, stem) then [es[k]] else []
  {
    assert es[..k + 1][..k] == es[..k];
  }

  /** Times ascending, each entry at most the next. */
  predicate ByMtime(s: seq<Entry>)
  {
    forall j, k :: 0 <= j < k < |s| ==> s[j].mtime <= s[k].mtime
  }

  /** Puts `x` before the first entry that is not older. */
  function InsertByMtime(x: Entry, s: seq<Entry>): (r: seq<Entry>)
    ensures |r| == |s| + 1
    ensures multiset(r) == multiset(s) + multiset{x}
    decreases |s|
  {
    if |s| == 0 then [x]
    else if x.mtime <= s[0].mtime then [x] + s
    else
      assert s == [s[0]] + s[1..];
      [s[0]] + InsertByMtime(x, s[1..])
  }

  /** `sorted(files_dict.items(), key=mtime)`: a stable sort, so entries with equal times keep their scan order. */
  function SortByMtime(t: seq<Entry>): (r: seq<Entry>)
    ensures |r| == |t|
    ensures multiset(r) == multiset(t)
    decreases |t|
  {
    if |t| == 0 then []
    else
      assert t == [t[0]] + t[1..];
      InsertByMtime(t[0], SortByMtime(t[1..]))
  }

  lemma {:induction false} InsertByMtimeSorted(x: Entry, s: seq<Entry>)
    requires ByMtime(s)
    ensures ByMtime(InsertByMtime(x, s))
    decreases |s|
  {
    if |s| > 0 && x.mtime > s[0].mtime {
      assert ByMtime(s[1..]) by {
        forall j, k | 0 <= j < k < |s[1..]| ensures s[1..][j].mtime <= s[1..][k].mtime {
          assert s[1..][j] == s[j + 1] && s[1..][k] == s[k + 1];
        }
      }
      InsertByMtimeSorted(x, s[1..]);
      InsertKeepsBound(x, s[1..], s[0].mtime);
      ConsByMtime(s[0], InsertByMtime(x, s[1..]));
    }
  }

  /** Inserting an entry no older than `lo` among entries no older than `lo` keeps them all no older. */
  lemma {:induction false} InsertKeepsBound(x: Entry, s: seq<Entry>, lo: int)
    requires lo <= x.mtime && forall k :: 0 <= k < |s| ==> lo <= s[k].mtime
    ensures forall k :: 0 <= k < |InsertByMtime(x, s)| ==> lo <= InsertByMtime(x, s)[k].mtime
    decreases |s|
  {
    if |s| > 0 && x.mtime > s[0].mtime {
      InsertKeepsBound(x, s[1..], lo);
    }
  }

  /** An entry no newer than any of a sorted sequence can go in front of it. */
  lemma ConsByMtime(h: Entry, t: seq<Entry>)
    requires ByMtime(t) && forall k :: 0 <= k < |t| ==> h.mtime <= t[k].mtime
    ensures ByMtime([h] + t)
  {
    var r := [h] + t;
    forall j, k | 0 <= j < k < |r| ensures r[j].mtime <= r[k].mtime {
      assert r[k] == t[k - 1];
      if j > 0 {
        assert r[j] == t[j - 1];
      }
    }
  }

  /** The sort puts the entries in ascending time order. */
  lemma {:induction false} SortByMtimeSorted(t: seq<Entry>)
    ensures ByMtime(SortByMtime(t))
    decreases |t|
  {
    if |t| > 0 {
      SortByMtimeSorted(t[1..]);
      InsertByMtimeSorted(t[0], SortByMtime(t[1..]));
    }
  }

  /** The entries of `s` whose time is `v`, in the order of `s`. */
  function WithMtime(s: seq<Entry>, v: int): seq<Entry>
    decreases |s|
  {
    if |s| == 0 then []
    else (if s[0].mtime == v then [s[0]] else []) + WithMtime(s[1..], v)
  }

  /** Picking the entries of one time from a sequence with a given first entry. */
  lemma WithMtimeCons(h: Entry, t: seq<Entry>, v: int)
    ensures WithMtime([h] + t, v) == (if h.mtime == v then [h] else []) + WithMtime(t, v)
  {
    assert ([h] + t)[0] == h && ([h] + t)[1..] == t;
  }

  /** Picking the entries of one time commutes with concatenation. */
  lemma {:induction false} WithMtimeConcat(a: seq<Entry>, b: seq<Entry>, v: int)
    ensures WithMtime(a + b, v) == WithMtime(a, v) + WithMtime(b, v)
    decreases |a|
  {
    if |a| == 0 {
      assert a + b == b;
    } else {
      var h := if a[0].mtime == v then [a[0]] else [];
      assert a == [a[0]] + a[1..] && a + b == [a[0]] + (a[1..] + b);
      WithMtimeCons(a[0], a[1..] + b, v);
      WithMtimeConcat(a[1..], b, v);
      WithMtimeCons(a[0], a[1..], v);
      assert h + (WithMtime(a[1..], v) + WithMtime(b, v)) == (h + WithMtime(a[1..], v)) + WithMtime(b, v);
    }
  }

  /** The inserted entry goes in front of every entry of its own time. */
  lemma {:induction false} InsertWithMtime(x: Entry, s: seq<Entry>, v: int)
    ensures WithMtime(InsertByMtime(x, s), v) == (if x.mtime == v then [x] else []) + WithMtime(s, v)
    decreases |s|
  {
    if |s| > 0 {
      if x.mtime <= s[0].mtime {
        assert InsertByMtime(x, s) == [x] + s;
        WithMtimeCons(x, s, v);
      } else {
        var rest := InsertByMtime(x, s[1..]);
        assert InsertByMtime(x, s) == [s[0]] + rest;
        assert s == [s[0]] + s[1..];
        InsertWithMtime(x, s[1..], v);
        OlderInFront(s[0], x, rest, s[1..], v);
      }
    }
  }

  /** An older entry in front does not change where `x` goes among the entries of time `v`. */
  lemma OlderInFront(h: Entry, x: Entry, rest: seq<Entry>, t: seq<Entry>, v: int)
    requires h.mtime < x.mtime
    requires WithMtime(rest, v) == (if x.mtime == v then [x] else []) + WithMtime(t, v)
    ensures WithMtime([h] + rest, v) == (if x.mtime == v then [x] else []) + WithMtime([h] + t, v)
  {
    WithMtimeCons(h, rest, v);
    WithMtimeCons(h, t, v);
    if h.mtime == v {
      assert WithMtime(rest, v) == [] + WithMtime(t, v) == WithMtime(t, v);
    } else {
      assert WithMtime([h] + rest, v) == [] + WithMtime(rest, v) == WithMtime(rest, v);
      assert WithMtime([h] + t, v) == [] + WithMtime(t, v) == WithMtime(t, v);
    }
  }

  /** The sort is stable: the entries of each time keep their scan order. */
  lemma {:induction false} SortByMtimeStable(t: seq<Entry>, v: int)
    ensures WithMtime(SortByMtime(t), v) == WithMtime(t, v)
    decreases |t|
  {
    if |t| > 0 {
      SortByMtimeStable(t[1..], v);
      InsertWithMtime(t[0], SortByMtime(t[1..]), v);
    }
  }

  /** The names of the entries, in order: the keys of the sorted dictionary. */
  function Keys(s: seq<Entry>): (r: seq<string>)
    ensures |r| == |s|
    ensures forall k :: 0 <= k < |s| ==> r[k] == s[k].name
  {
    seq(|s|, k requires 0 <= k < |s| => s[k].name)
  }

  /** Python's reading of an index into a sequence of length `len`: a negative one counts from the end. */
  function Adjusted(n: int, len: nat): int
  {
    if n < 0 then n + len else n
  }

  /**
   * `get_nth_key`: the key at position `n` (from the end when negative),
   * or `IndexError` when there is none.
   */
  method GetNthKey(keys: seq<string>, n: int) returns (r: Result<string, string>)
    ensures var i := Adjusted(n, |keys|); r.Ok? <==> 0 <= i < |keys|
    ensures var i := Adjusted(n, |keys|); r.Ok? ==> r.value == keys[i]
    ensures r.Err? ==> r.error == "dictionary index out of range"
  {
    var m := n;
    if m < 0 {
      m := m + |keys|;
    }
    var i := 0;
    while i < |keys|
      invariant 0 <= i <= |keys|
      invariant !(0 <= m < i)
    {
      if i == m {
        return Ok(keys[i]);
      }
      i := i + 1;
    }
    return Err("dictionary index out of range");
  }

  /** The stem the previous-backup lookup searches for: the basename up to its last '.' (without a '.', all but its last character). */
  function Stem(path: string): string
  {
    var base := Basename(path);
    base[..SliceBound(|base|, RFind(base, '.'))]
  }

  /** The name `get_last_backed_up_file_name` returns: the second newest matching entry, or "" when there are fewer than two. */
  function LastBackup(es: seq<Entry>, path: string): string
  {
    var s := SortByMtime(Matching(es, Stem(path)));
    if |s| < 2 then "" else s[|s| - 2].name
  }

  /**
   * In a folder, the previous backup is the second newest matching entry:
   * at most one matching entry is newer than it, or as new and scanned later,
   * namely the newest one, another file, which is normally the file itself.
   * Since the second newest entry is determined, this pins the name returned.
   */
  lemma LastBackupIsSecondNewest(es: seq<Entry>, path: string)
    requires UniqueNames(es)
    requires |Matching(es, Stem(path))| >= 2
    ensures exists e :: SecondNewestIn(Matching(es, Stem(path)), e) && e.name == LastBackup(es, path)
    ensures forall e :: SecondNewestIn(Matching(es, Stem(path)), e) ==> e.name == LastBackup(es, path)
  {
    var m := Matching(es, Stem(path));
    MatchingUnique(es, Stem(path));
    SecondNewestIsSortedSecondLast(m);
    var e := SortByMtime(m)[|m| - 2];
    assert e.name == LastBackup(es, path);
    assert SecondNewestIn(m, e);
  }

  /** Exactly one entry is second newest: the second last of the stable time sort. */
  lemma SecondNewestIsSortedSecondLast(m: seq<Entry>)
    requires UniqueNames(m) && |m| >= 2
    ensures forall e :: SecondNewestIn(m, e) <==> e == SortByMtime(m)[|m| - 2]
  {
    var e := SortByMtime(m)[|m| - 2];
    SortedSecondNewest(m);
    forall e2 | SecondNewestIn(m, e2) ensures e2 == e {
      SecondNewestUnique(m, e2, e);
    }
  }

  /**
   * `e` is one of `m`, and another entry of `m`, with a different name, is
   * newer than it or as new: any entry strictly newer is that one. Ties go by
   * scan order: among the entries of `e`'s time, `e` is the last when the
   * newest one is strictly newer, and the second last, followed by the newest
   * one, when the two are as new. At most one entry is second newest
   * (`SecondNewestUnique`).
   */
  predicate SecondNewestIn(m: seq<Entry>, e: Entry)
  {
    e in m && exists newest :: newest in m && NewestAbove(m, e, newest)
  }

  /** `newest` is the entry of `m` that `SecondNewestIn` asks for above `e`. */
  predicate NewestAbove(m: seq<Entry>, e: Entry, newest: Entry)
  {
    newest in m && newest.name != e.name && newest.mtime >= e.mtime &&
    (forall x :: x in m && x.mtime > e.mtime ==> x == newest) && LastOfItsTime(m, e, newest)
  }

  /**
   * Among the entries of `m` with `e`'s time, `e` comes last when `newest` is
   * strictly newer, and just before `newest`, which comes last, otherwise.
   */
  predicate LastOfItsTime(m: seq<Entry>, e: Entry, newest: Entry)
  {
    var w := WithMtime(m, e.mtime);
    if newest.mtime > e.mtime then |w| > 0 && w[|w| - 1] == e
    else |w| >= 2 && w[|w| - 2] == e && w[|w| - 1] == newest
  }

  /** The second newest entry is determined: two entries that both are second newest are the same. */
  lemma SecondNewestUnique(m: seq<Entry>, e1: Entry, e2: Entry)
    requires SecondNewestIn(m, e1) && SecondNewestIn(m, e2)
    ensures e1 == e2
  {
    var n1 :| NewestAbove(m, e1, n1);
    var n2 :| NewestAbove(m, e2, n2);
    NotNewerThanSecond(m, e1, n1, e2, n2);
    NotNewerThanSecond(m, e2, n2, e1, n1);
  }

  /** An entry of `m` with its newest one above it is not older than any other second newest entry. */
  lemma NotNewerThanSecond(m: seq<Entry>, e1: Entry, n1: Entry, e2: Entry, n2: Entry)
    requires e1 in m && NewestAbove(m, e1, n1) && e2 in m && NewestAbove(m, e2, n2)
    ensures e2.mtime <= e1.mtime
  {
  }

  /** The second last entry of the time-sorted entries is second newest. */
  lemma SortedSecondNewest(m: seq<Entry>)
    requires UniqueNames(m) && |m| >= 2
    ensures SecondNewestIn(m, SortByMtime(m)[|m| - 2])
  {
    SortByMtimeSorted(m);
    SecondLastIsSecondNewest(m, SortByMtime(m));
  }

  /** The second last entry of a stable time-ordered reordering of `m` is second newest in `m`. */
  lemma SecondLastIsSecondNewest(m: seq<Entry>, s: seq<Entry>)
    requires UniqueNames(m) && ByMtime(s) && |m| >= 2 && s == SortByMtime(m)
    ensures SecondNewestIn(m, s[|m| - 2])
  {
    var e := s[|m| - 2];
    var newest := s[|m| - 1];
    assert |s| == |m| && e == s[|s| - 2] && newest == s[|s| - 1];
    SortByMtimeStable(m, e.mtime);
    NewerThanSecondLast(m, s);
    LastTwoDiffer(m, s);
    assert e in multiset(m) && newest in multiset(m);
    SortedLastOfItsTime(m, s);
    SecondNewestWitness(m, e, newest);
  }

  /** An entry with a newest one as `SecondNewestIn` describes is second newest. */
  lemma SecondNewestWitness(m: seq<Entry>, e: Entry, newest: Entry)
    requires e in m && newest in m && newest.name != e.name && newest.mtime >= e.mtime
    requires forall x :: x in m && x.mtime > e.mtime ==> x == newest
    requires LastOfItsTime(m, e, newest)
    ensures SecondNewestIn(m, e)
  {
  }

  /** In the stable sort, the second last entry is last or second last of its time in scan order. */
  lemma SortedLastOfItsTime(m: seq<Entry>, s: seq<Entry>)
    requires |s| >= 2 && s[|s| - 2].mtime <= s[|s| - 1].mtime
    requires WithMtime(s, s[|s| - 2].mtime) == WithMtime(m, s[|s| - 2].mtime)
    ensures LastOfItsTime(m, s[|s| - 2], s[|s| - 1])
  {
    var n := |s|;
    var e := s[n - 2];
    var last := s[n - 1];
    assert s == s[..n - 2] + [e] + [last];
    LastTwoWithMtime(s[..n - 2], e, last);
    var w := WithMtime(m, e.mtime);
    var tail := if last.mtime == e.mtime then [last] else [];
    assert w == WithMtime(s[..n - 2], e.mtime) + [e] + tail;
    if last.mtime == e.mtime {
      assert w[|w| - 2] == e && w[|w| - 1] == last;
    } else {
      assert w[|w| - 1] == e;
    }
  }

  /** The entries of `e`'s time in `pre + [e, last]` end with `e`, or with `e` and `last`. */
  lemma LastTwoWithMtime(pre: seq<Entry>, e: Entry, last: Entry)
    ensures WithMtime(pre + [e] + [last], e.mtime) ==
      WithMtime(pre, e.mtime) + [e] + (if last.mtime == e.mtime then [last] else [])
  {
    var v := e.mtime;
    WithMtimeConcat(pre, [e], v);
    WithMtimeSingle(e, v);
    WithMtimeConcat(pre + [e], [last], v);
    WithMtimeSingle(last, v);
  }

  lemma WithMtimeSingle(x: Entry, v: int)
    ensures WithMtime([x], v) == if x.mtime == v then [x] else []
  {
    assert [x][1..] == [];
  }

  /** In a time-ordered reordering, only the last entry can be newer than the one before it. */
  lemma NewerThanSecondLast(m: seq<Entry>, s: seq<Entry>)
    requires ByMtime(s) && multiset(s) == multiset(m) && |s| >= 2
    ensures forall x :: x in m && x.mtime > s[|s| - 2].mtime ==> x == s[|s| - 1]
  {
    var n := |s|;
    forall x | x in m && x.mtime > s[n - 2].mtime ensures x == s[n - 1] {
      assert x in multiset(s);
      var k :| 0 <= k < n && s[k] == x;
    }
  }

  /** The matching entries of a folder have unique names too. */
  lemma {:induction false} MatchingUnique(es: seq<Entry>, stem: string)
    requires UniqueNames(es)
    ensures UniqueNames(Matching(es, stem))
    decreases |es|
  {
    if |es| > 0 {
      var init := es[..|es| - 1];
      assert UniqueNames(init) by {
        forall j, k | 0 <= j < k < |init| ensures init[j].name != init[k].name {
          assert init[j] == es[j] && init[k] == es[k];
        }
      }
      MatchingUnique(init, stem);
      var rest := Matching(init, stem);
      var last := es[|es| - 1];
      if Contains(last.name, stem) {
        forall j | 0 <= j < |rest| ensures rest[j].name != last.name {
          assert rest[j] in init;
          var i :| 0 <= i < |init| && init[i] == rest[j];
          assert es[i] == rest[j];
        }
      }
    }
  }

  /** An entry occurs at most once in a sequence of entries with unique names. */
  lemma {:induction false} UniqueCount(m: seq<Entry>, x: Entry)
    requires UniqueNames(m)
    ensures multiset(m)[x] <= 1
    decreases |m|
  {
    if |m| > 0 {
      var init := m[..|m| - 1];
      assert m == init + [m[|m| - 1]];
      assert UniqueNames(init) by {
        forall j, k | 0 <= j < k < |init| ensures init[j].name != init[k].name {
          assert init[j] == m[j] && init[k] == m[k];
        }
      }
      UniqueCount(init, x);
    }
  }

  /** A reordering of entries with unique names has different names in its last two places. */
  lemma LastTwoDiffer(m: seq<Entry>, s: seq<Entry>)
    requires UniqueNames(m)
    requires multiset(s) == multiset(m) && |s| >= 2
    ensures s[|s| - 2].name != s[|s| - 1].name
  {
    var n := |s|;
    if s[n - 2].name == s[n - 1].name {
      assert s[n - 2] in multiset(m) && s[n - 1] in multiset(m);
      var i :| 0 <= i < |m| && m[i] == s[n - 2];
      var j :| 0 <= j < |m| && m[j] == s[n - 1];
      if i == j {
        var x := s[n - 1];
        assert s == s[..n - 2] + [x, x];
        assert multiset(s)[x] >= 2;
        UniqueCount(m, x);
      }
    }
  }

  /** The scan that fills `files_dict`: every entry whose name contains `stem`, in scan order. */
  method CollectMatching(entries: seq<Entry>, stem: string) returns (files: seq<Entry>)
    ensures files == Matching(entries, stem)
  {
    files := [];
    var k := 0;
    while k < |entries|
      invariant 0 <= k <= |entries|
      invariant files == Matching(entries[..k], stem)
    {
      MatchingStep(entries, k, stem);
      if Contains(entries[k].name, stem) {
        files := files + [entries[k]];
      }
      k := k + 1;
    }
    assert entries[..k] == entries;
  }

  /** `get_last_backed_up_file_name`: collects the matching entries, sorts them by time and picks the second newest. */
  method GetLastBackedUpFileName(folder: Folder, path: string) returns (name: string)
    ensures name == LastBackup(folder.entries, path)
  {
    var files := CollectMatching(folder.entries, Stem(path));
    var sorted := SortByMtime(files);
    assert LastBackup(folder.entries, path) == if |sorted| < 2 then "" else sorted[|sorted| - 2].name;
    if |sorted| < 2 {
      return "";
    }
    var keys := Keys(sorted);
    var r := GetNthKey(keys, -2);
    assert Adjusted(-2, |keys|) == |sorted| - 2;
    name := r.value;
  }
}
