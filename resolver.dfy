/** The most-recent-file resolver: `get_most_recent_xlsx_file`.

    The directory listing (`glob.glob`) is an input here: the candidate
    paths arrive as a sequence, in the order the listing produced them.
    Each path is keyed by the first `YYYY-MM-DD` text in its file name, or by
    `datetime.min` when there is none or it is not a real date, and the path
    with the greatest key wins; Python's `max` keeps the first of several
    equal keys.
 */
module Resolver {
  import opened Text
  import opened Dates

  /** `os.path.basename` on POSIX: what follows the last `/`. */
  function Basename(path: string): (name: string)
    ensures |name| <= |path| && name == path[|path| - |name|..]
    ensures '/' !in name
    ensures |name| < |path| ==> path[|path| - |name| - 1] == '/'
  {
    if path == [] then []
    else if path[|path| - 1] == '/' then []
    else Basename(path[..|path| - 1]) + [path[|path| - 1]]
  }

  /** A path without a separator is its own file name. */
  lemma {:induction false} BasenameOfName(name: string)
    requires '/' !in name
    ensures Basename(name) == name
  {
    assert forall k :: 0 <= k < |name| ==> name[k] != '/';
  }

  /** The directory part of a path never reaches the file name. */
  lemma {:induction false} BasenameDropsDirectory(dir: string, name: string)
    requires '/' !in name
    ensures Basename(dir + "/" + name) == name
  {
    var p := dir + "/" + name;
    if name != [] {
      var init := name[..|name| - 1];
      assert p[..|p| - 1] == dir + "/" + init;
      assert '/' !in init by {
        forall k | 0 <= k < |init| ensures init[k] != '/' {
          assert init[k] == name[k] && name[k] in name;
        }
      }
      assert p[|p| - 1] == name[|name| - 1] && name[|name| - 1] in name;
      BasenameDropsDirectory(dir, init);
      assert name == init + [name[|name| - 1]];
    }
  }

  /** `\d{4}-\d{2}-\d{2}` matches the text starting at position `i` of `s`. */
  predicate MatchesAt(s: string, i: nat) {
    i + 10 <= |s| && IsDateShaped(s[i..i + 10])
  }

  /** Where `re.search` finds the pattern scanning from `i`: the leftmost match, if any. */
  function FirstMatchFrom(s: string, i: nat): (r: Option<nat>)
    requires i <= |s|
    ensures r.Some? ==> i <= r.value && MatchesAt(s, r.value)
    ensures r.Some? ==> forall k :: i <= k < r.value ==> !MatchesAt(s, k)
    ensures r.None? ==> forall k :: i <= k ==> !MatchesAt(s, k)
    decreases |s| - i
  {
    if i + 10 > |s| then None
    else if MatchesAt(s, i) then Some(i)
    else FirstMatchFrom(s, i + 1)
  }

  /** `re.search(r'\d{4}-\d{2}-\d{2}', s)`: the start of the leftmost match. */
  function FirstMatch(s: string): Option<nat> {
    FirstMatchFrom(s, 0)
  }

  /** The scan stops exactly at the leftmost match. */
  lemma {:induction false} FirstMatchFromIs(s: string, j: nat, i: nat)
    requires j <= i && MatchesAt(s, i)
    requires forall k :: j <= k < i ==> !MatchesAt(s, k)
    ensures FirstMatchFrom(s, j) == Some(i)
    decreases i - j
  {
    if j < i {
      FirstMatchFromIs(s, j + 1, i);
    }
  }

  /** A match cannot start on a character that is not a digit. */
  lemma NoMatchAtNonDigit(s: string, i: nat)
    requires i < |s| && !IsDigit(s[i])
    ensures !MatchesAt(s, i)
  {
    if i + 10 <= |s| {
      assert s[i..i + 10][..4][0] == s[i];
    }
  }

  /** `extract_date_from_filename`: the date spelt by the first match in the
      file name when it is a real date, and `datetime.min` otherwise. The
      `ValueError` of an invalid date is swallowed, never raised. */
  function DateKey(path: string): (key: Date)
    ensures IsValid(key)
  {
    var name := Basename(path);
    match FirstMatch(name)
    case None => MinDate
    case Some(i) =>
      match ParseDate(name[i..i + 10])
      case Some(d) => d
      case None => MinDate
  }

  /** A key other than `datetime.min` is the date written, digit for digit,
      at the leftmost date-shaped place in the file name. */
  lemma DatedKeyIsFirstMatch(path: string)
    requires DateKey(path) != MinDate
    ensures FirstMatch(Basename(path)).Some?
    ensures var i := FirstMatch(Basename(path)).value;
            Basename(path)[i..i + 10] == Format(DateKey(path))
  {
    var name := Basename(path);
    var i := FirstMatch(name).value;
    FormatParse(name[i..i + 10]);
  }

  /** Only the first match is tried: when it is not a real date the key is
      `datetime.min`, whatever later text in the name spells. */
  lemma InvalidFirstMatchIsUndated(path: string, i: nat)
    requires MatchesAt(Basename(path), i)
    requires forall k :: 0 <= k < i ==> !MatchesAt(Basename(path), k)
    requires ParseDate(Basename(path)[i..i + 10]).None?
    ensures DateKey(path) == MinDate
  {
    var name := Basename(path);
    FirstMatchFromIs(name, 0, i);
    assert FirstMatch(name) == Some(i);
  }

  /** When the leftmost match is a real date, that date is the key, whatever
      comes before it in the name (digits included, as in `v2_2025-09-19.xlsx`). */
  lemma ValidFirstMatchIsKey(path: string, i: nat)
    requires MatchesAt(Basename(path), i)
    requires forall k :: 0 <= k < i ==> !MatchesAt(Basename(path), k)
    requires ParseDate(Basename(path)[i..i + 10]).Some?
    ensures DateKey(path) == ParseDate(Basename(path)[i..i + 10]).value
  {
    FirstMatchFromIs(Basename(path), 0, i);
    KeyAtFirstMatch(path, i);
  }

  /** The key once the leftmost match is known: the date it spells, if any. */
  lemma KeyAtFirstMatch(path: string, i: nat)
    requires FirstMatch(Basename(path)) == Some(i)
    ensures ParseDate(Basename(path)[i..i + 10]).Some? ==> DateKey(path) == ParseDate(Basename(path)[i..i + 10]).value
  {
  }

  /** A name with no date-shaped text at all is undated. */
  lemma NoMatchIsUndated(path: string)
    requires forall k :: 0 <= k ==> !MatchesAt(Basename(path), k)
    ensures DateKey(path) == MinDate
  {
  }

  /** Only the file name is scanned: a date in the directory part is ignored. */
  lemma DirectoryIsIgnored(dir: string, name: string)
    requires '/' !in name
    ensures DateKey(dir + "/" + name) == DateKey(name)
  {
    BasenameDropsDirectory(dir, name);
    BasenameOfName(name);
  }

  /** A name assembled from separator-free parts is separator-free. */
  lemma {:induction false} NoSeparatorIn(prefix: string, middle: string, suffix: string)
    requires '/' !in prefix && '/' !in middle && '/' !in suffix
    ensures '/' !in prefix + middle + suffix
  {
    var name := prefix + middle + suffix;
    forall k | 0 <= k < |name| ensures name[k] != '/' {
      if k < |prefix| {
        assert name[k] == prefix[k] && prefix[k] in prefix;
      } else if k < |prefix| + |middle| {
        assert name[k] == middle[k - |prefix|] && middle[k - |prefix|] in middle;
      } else {
        assert name[k] == suffix[k - |prefix| - |middle|] && suffix[k - |prefix| - |middle|] in suffix;
      }
    }
  }

  /** In `prefix + YYYY-MM-DD + suffix` with a digit-free prefix, the date
      text is the leftmost match. */
  lemma FirstMatchAfterPrefix(prefix: string, f: string, suffix: string)
    requires |f| == 10 && IsDateShaped(f)
    requires forall k :: 0 <= k < |prefix| ==> !IsDigit(prefix[k])
    ensures FirstMatch(prefix + f + suffix) == Some(|prefix|)
  {
    var name := prefix + f + suffix;
    var p := |prefix|;
    assert name[p..p + 10] == f;
    forall k | 0 <= k < p ensures !MatchesAt(name, k) {
      assert name[k] == prefix[k];
      NoMatchAtNonDigit(name, k);
    }
    FirstMatchFromIs(name, 0, p);
  }

  /** A file named `prefix + YYYY-MM-DD + suffix`, whose prefix holds no digit,
      is keyed by that date. */
  lemma KeyOfDatedName(prefix: string, d: Date, suffix: string)
    requires IsValid(d)
    requires forall k :: 0 <= k < |prefix| ==> !IsDigit(prefix[k]) && prefix[k] != '/'
    requires '/' !in suffix
    ensures DateKey(prefix + Format(d) + suffix) == d
  {
    var f := Format(d);
    var name := prefix + f + suffix;
    assert '/' !in prefix;
    assert '/' !in f;
    NoSeparatorIn(prefix, f, suffix);
    BasenameOfName(name);
    FirstMatchAfterPrefix(prefix, f, suffix);
    assert name[|prefix|..|prefix| + 10] == f;
    ParseFormat(d);
  }

  /** The key of every listed file, in listing order. */
  function Keys(files: seq<string>): seq<Date> {
    seq(|files|, i requires 0 <= i < |files| => DateKey(files[i]))
  }

  /** The position `max` settles on while scanning `keys` left to right, moving
      only to a strictly later key: the greatest key, and every earlier
      position holds a strictly smaller one. */
  function FirstLatest(keys: seq<Date>): (k: nat)
    requires |keys| > 0
    ensures k < |keys|
    ensures forall j :: 0 <= j < |keys| ==> !Before(keys[k], keys[j])
    ensures forall j :: 0 <= j < k ==> Before(keys[j], keys[k])
  {
    if |keys| == 1 then 0
    else
      var m := FirstLatest(keys[..|keys| - 1]);
      assert keys[m] == keys[..|keys| - 1][m];
      if Before(keys[m], keys[|keys| - 1]) then |keys| - 1 else m
  }

  /** The two properties of `FirstLatest` single out one position. */
  lemma FirstLatestIsUnique(keys: seq<Date>, j: nat)
    requires j < |keys|
    requires forall i :: 0 <= i < |keys| ==> !Before(keys[j], keys[i])
    requires forall i :: 0 <= i < j ==> Before(keys[i], keys[j])
    ensures FirstLatest(keys) == j
  {
  }

  /** `get_most_recent_xlsx_file` over the listed candidates: `None` for an
      empty listing, else the first candidate with the latest key. */
  function MostRecentXlsxFile(files: seq<string>): (r: Option<string>)
    ensures r.None? <==> files == []
    ensures r.Some? ==> r.value in files
    ensures r.Some? ==> forall f :: f in files ==> !Before(DateKey(r.value), DateKey(f))
  {
    if files == [] then None
    else
      var k := FirstLatest(Keys(files));
      assert forall j :: 0 <= j < |files| ==> Keys(files)[j] == DateKey(files[j]);
      Some(files[k])
  }

  /** Among files sharing the latest key, the one listed first is returned. */
  lemma TiesGoToEarliest(files: seq<string>, j: nat)
    requires j < |files|
    requires forall i :: 0 <= i < |files| ==> !Before(DateKey(files[j]), DateKey(files[i]))
    requires forall i :: 0 <= i < j ==> Before(DateKey(files[i]), DateKey(files[j]))
    ensures MostRecentXlsxFile(files) == Some(files[j])
  {
    var keys := Keys(files);
    assert forall i :: 0 <= i < |files| ==> keys[i] == DateKey(files[i]);
    FirstLatestIsUnique(keys, j);
  }

  /** A listing in which no file carries a date yields its first file, not the
      lexicographically greatest one. */
  lemma AllUndatedPicksFirst(files: seq<string>)
    requires files != []
    requires forall f :: f in files ==> DateKey(f) == MinDate
    ensures MostRecentXlsxFile(files) == Some(files[0])
  {
    assert forall i :: 0 <= i < |files| ==> files[i] in files;
    TiesGoToEarliest(files, 0);
  }

  /** Any file dated after 0001-01-01 outranks every undated file: if one is
      listed, the result is dated. */
  lemma DatedOutranksUndated(files: seq<string>, j: nat)
    requires j < |files| && Before(MinDate, DateKey(files[j]))
    ensures MostRecentXlsxFile(files).Some?
    ensures Before(MinDate, DateKey(MostRecentXlsxFile(files).value))
  {
    var r := MostRecentXlsxFile(files).value;
    assert files[j] in files;
    MinDateIsLeast(DateKey(r));
  }
}
