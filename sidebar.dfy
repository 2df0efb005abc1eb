/** The file list of the sidebar (src/components/Sidebar.js): files grouped by the local
    date they were last updated, the groups newest first, the files of a group newest
    first, the open file marked as selected. */
module Sidebar {
  import opened Wrappers
  import opened Text

  /** One row of the document list: its id, name, `updated_at` timestamp and that
      timestamp's local calendar date (`getFullYear`, the 0-based `getMonth`, `getDate`). */
  datatype FileEntry = FileEntry(id: int, name: string, updatedAt: int, year: int, month0: nat, day: nat)

  /** A two-digit field: `String(n).padStart(2, '0')`. */
  function TwoDigits(n: nat): string {
    PadStart(NatToString(n), 2, '0')
  }

  /** Below 100, the padded field is the tens digit and the units digit. */
  lemma TwoDigitsBelow100(n: nat)
    requires n < 100
    ensures TwoDigits(n) == Digits(n, 2)
  {
    assert Digits(n, 2) == Digits(n / 10 / 10, 0) + [DigitChar(n / 10 % 10)] + [DigitChar(n % 10)];
    if n >= 10 {
      assert NatToString(n) == NatToString(n / 10) + [DigitChar(n % 10)];
    }
  }

  /** The last `k` decimal digits of `n`, with leading zeros. */
  function Digits(n: nat, k: nat): (r: string)
    ensures |r| == k
  {
    if k == 0 then [] else Digits(n / 10, k - 1) + [DigitChar(n % 10)]
  }

  /** `n` has at most `k` decimal digits. */
  predicate Fits(n: nat, k: nat) {
    if k == 0 then n == 0 else Fits(n / 10, k - 1)
  }

  lemma FitsWidths(n: nat)
    ensures n < 100 ==> Fits(n, 2)
    ensures n < 10000 ==> Fits(n, 4)
  {
    assert Fits(n / 10 / 10, 0) <==> n < 100;
    assert Fits(n / 10 / 10 / 10 / 10, 0) <==> n < 10000;
    assert Fits(n / 10 / 10 / 10, 1) == Fits(n / 10 / 10 / 10 / 10, 0);
    assert Fits(n / 10 / 10, 2) == Fits(n / 10 / 10 / 10, 1);
  }

  /** The group key `${year}-${MM}-${DD}`, the month counted from 1. */
  function DateKey(f: FileEntry): string {
    IntToString(f.year) + "-" + TwoDigits(f.month0 + 1) + "-" + TwoDigits(f.day)
  }

  /** A date the key describes unambiguously: a four-digit year, a month, a day. */
  predicate FourDigitDate(f: FileEntry) {
    1000 <= f.year <= 9999 && f.month0 < 12 && 1 <= f.day <= 31
  }

  /** Calendar order of the dates of two files. */
  predicate DateBefore(f: FileEntry, g: FileEntry) {
    || f.year < g.year
    || (f.year == g.year && f.month0 < g.month0)
    || (f.year == g.year && f.month0 == g.month0 && f.day < g.day)
  }

  /** Equal-width digit strings compare like their numbers. */
  lemma {:induction false} DigitsOrder(a: nat, b: nat, k: nat)
    requires Fits(a, k) && Fits(b, k)
    ensures LexLess(Digits(a, k), Digits(b, k)) <==> a < b
    decreases k
  {
    if k == 0 {
    } else {
      DigitsOrder(a / 10, b / 10, k - 1);
      DigitsOrder(b / 10, a / 10, k - 1);
      LexLessIrreflexive(Digits(a / 10, k - 1));
      LexLessAppend(Digits(a / 10, k - 1), [DigitChar(a % 10)], Digits(b / 10, k - 1), [DigitChar(b % 10)]);
    }
  }

  lemma FourDigitYear(y: int)
    requires 1000 <= y <= 9999
    ensures IntToString(y) == Digits(y, 4)
  {
    var n: nat := y;
    assert n / 10 / 10 == n / 100 && n / 100 / 10 == n / 1000;
    assert NatToString(n) == NatToString(n / 10) + [DigitChar(n % 10)];
    assert NatToString(n / 10) == NatToString(n / 100) + [DigitChar(n / 10 % 10)];
    assert NatToString(n / 100) == NatToString(n / 1000) + [DigitChar(n / 100 % 10)];
    assert Digits(n / 1000, 1) == [DigitChar(n / 1000 % 10)];
    assert Digits(n / 100, 2) == Digits(n / 1000, 1) + [DigitChar(n / 100 % 10)];
    assert Digits(n / 10, 3) == Digits(n / 100, 2) + [DigitChar(n / 10 % 10)];
  }

  /** Equal-width digit strings are equal exactly when their numbers are. */
  lemma DigitsInjective(a: nat, b: nat, k: nat)
    requires Fits(a, k) && Fits(b, k)
    ensures Digits(a, k) == Digits(b, k) <==> a == b
  {
    if a != b && Digits(a, k) == Digits(b, k) {
      DigitsOrder(a, b, k);
      DigitsOrder(b, a, k);
      LexLessIrreflexive(Digits(a, k));
    }
  }

  /** `-MM-DD` compares month first, then day. */
  lemma MonthDayOrder(mf: string, df: string, mg: string, dg: string)
    requires |mf| == |mg|
    ensures LexLess("-" + mf + "-" + df, "-" + mg + "-" + dg)
            <==> LexLess(mf, mg) || (mf == mg && LexLess(df, dg))
  {
    assert "-" + mf + "-" + df == "-" + (mf + ("-" + df));
    assert "-" + mg + "-" + dg == "-" + (mg + ("-" + dg));
    LexLessAppend("-", mf + ("-" + df), "-", mg + ("-" + dg));
    LexLessAppend(mf, "-" + df, mg, "-" + dg);
    LexLessAppend("-", df, "-", dg);
    LexLessIrreflexive("-");
  }

  /** A key compares year field first, then month, then day, when the fields have equal
      widths. */
  lemma FieldOrder(yf: string, mf: string, df: string, yg: string, mg: string, dg: string)
    requires |yf| == |yg| && |mf| == |mg|
    ensures LexLess(yf + "-" + mf + "-" + df, yg + "-" + mg + "-" + dg)
            <==> LexLess(yf, yg) || (yf == yg && (LexLess(mf, mg) || (mf == mg && LexLess(df, dg))))
  {
    assert yf + "-" + mf + "-" + df == yf + ("-" + mf + "-" + df);
    assert yg + "-" + mg + "-" + dg == yg + ("-" + mg + "-" + dg);
    LexLessAppend(yf, "-" + mf + "-" + df, yg, "-" + mg + "-" + dg);
    MonthDayOrder(mf, df, mg, dg);
  }

  /** Two strings compare, both ways, like two numbers. */
  predicate SameOrder(sa: string, sb: string, a: int, b: int) {
    (LexLess(sa, sb) <==> a < b) && (LexLess(sb, sa) <==> b < a)
  }

  /** The digit strings `sa` and `sb` of `a` and `b` at one width compare like them. */
  lemma DigitsSameOrder(a: nat, b: nat, k: nat, sa: string, sb: string)
    requires Fits(a, k) && Fits(b, k)
    requires sa == Digits(a, k) && sb == Digits(b, k)
    ensures SameOrder(sa, sb, a, b) && |sa| == |sb|
  {
    DigitsOrder(a, b, k);
    DigitsOrder(b, a, k);
  }

  /** Fields that compare like the year, the month and the day numbers make keys that
      compare like those numbers, year first. */
  lemma KeyFieldsOrder(y1: int, m1: int, d1: int, y2: int, m2: int, d2: int,
                       yf: string, mf: string, df: string, yg: string, mg: string, dg: string)
    ensures |yf| == |yg| && |mf| == |mg| &&
            SameOrder(yf, yg, y1, y2) && SameOrder(mf, mg, m1, m2) && SameOrder(df, dg, d1, d2) ==>
              (LexLess(yf + "-" + mf + "-" + df, yg + "-" + mg + "-" + dg)
               <==> y1 < y2 || (y1 == y2 && (m1 < m2 || (m1 == m2 && d1 < d2))))
  {
    if |yf| == |yg| && |mf| == |mg| {
      FieldOrder(yf, mf, df, yg, mg, dg);
      if yf != yg {
        LexLessTotal(yf, yg);
      }
      if mf != mg {
        LexLessTotal(mf, mg);
      }
      LexLessIrreflexive(yf);
      LexLessIrreflexive(mf);
    }
  }

  /** Four-digit years print as strings that compare like the years. */
  lemma YearFieldOrder(f: FileEntry, g: FileEntry)
    requires FourDigitDate(f) && FourDigitDate(g)
    ensures SameOrder(IntToString(f.year), IntToString(g.year), f.year, g.year)
    ensures |IntToString(f.year)| == |IntToString(g.year)|
  {
    FourDigitYear(f.year);
    FourDigitYear(g.year);
    FitsWidths(f.year);
    FitsWidths(g.year);
    DigitsSameOrder(f.year, g.year, 4, IntToString(f.year), IntToString(g.year));
  }

  /** Padded fields below 100 compare like their numbers. */
  lemma PadFieldOrder(a: nat, b: nat)
    requires a < 100 && b < 100
    ensures SameOrder(TwoDigits(a), TwoDigits(b), a, b) && |TwoDigits(a)| == |TwoDigits(b)|
  {
    TwoDigitsBelow100(a);
    TwoDigitsBelow100(b);
    FitsWidths(a);
    FitsWidths(b);
    DigitsSameOrder(a, b, 2, TwoDigits(a), TwoDigits(b));
  }

  /** Keys whose fields compare like the date's numbers compare like the dates. */
  lemma DateKeyFieldsOrder(f: FileEntry, g: FileEntry)
    ensures |IntToString(f.year)| == |IntToString(g.year)| &&
            |TwoDigits(f.month0 + 1)| == |TwoDigits(g.month0 + 1)| &&
            SameOrder(IntToString(f.year), IntToString(g.year), f.year, g.year) &&
            SameOrder(TwoDigits(f.month0 + 1), TwoDigits(g.month0 + 1), f.month0 + 1, g.month0 + 1) &&
            SameOrder(TwoDigits(f.day), TwoDigits(g.day), f.day, g.day) ==>
              (LexLess(DateKey(f), DateKey(g)) <==> DateBefore(f, g))
  {
    var yf, mf, df := IntToString(f.year), TwoDigits(f.month0 + 1), TwoDigits(f.day);
    var yg, mg, dg := IntToString(g.year), TwoDigits(g.month0 + 1), TwoDigits(g.day);
    assert DateKey(f) == yf + "-" + mf + "-" + df;
    assert DateKey(g) == yg + "-" + mg + "-" + dg;
    KeyFieldsOrder(f.year, f.month0 + 1, f.day, g.year, g.month0 + 1, g.day, yf, mf, df, yg, mg, dg);
  }

  /** For four-digit years, descending key order is newest date first: one key sorts
      below another exactly when its date is earlier. */
  lemma KeyOrderIsDateOrder(f: FileEntry, g: FileEntry)
    requires FourDigitDate(f) && FourDigitDate(g)
    ensures LexLess(DateKey(f), DateKey(g)) <==> DateBefore(f, g)
  {
    YearFieldOrder(f, g);
    PadFieldOrder(f.month0 + 1, g.month0 + 1);
    PadFieldOrder(f.day, g.day);
    DateKeyFieldsOrder(f, g);
  }

  // ---------------------------------------------------------------------------------------
  // The `reduce` into groups, stated for any key function `keyOf` (the sidebar's is
  // `DateKey`)

  /** The files whose key is `key`, in input order. */
  function FilesWithKey(files: seq<FileEntry>, keyOf: FileEntry -> string, key: string): (g: seq<FileEntry>)
    ensures |g| <= |files|
    ensures forall i | 0 <= i < |g| :: keyOf(g[i]) == key && g[i] in files
  {
    if files == [] then []
    else
      var init := FilesWithKey(files[..|files| - 1], keyOf, key);
      if keyOf(files[|files| - 1]) == key then init + [files[|files| - 1]] else init
  }

  /** The keys in the order they are first met, which is the order in which the
      accumulator gets its properties. */
  function DistinctKeys(files: seq<FileEntry>, keyOf: FileEntry -> string): seq<string> {
    if files == [] then []
    else
      var init := DistinctKeys(files[..|files| - 1], keyOf);
      var k := keyOf(files[|files| - 1]);
      if k in init then init else init + [k]
  }

  /** No value occurs twice. */
  predicate Distinct<T(==)>(s: seq<T>) {
    forall i, j | 0 <= i < j < |s| :: s[i] != s[j]
  }

  /** The accumulator holds exactly the groups of `files`: its property order is the keys
      in the order first met, and each group is its key's files in input order. */
  ghost predicate Grouped(files: seq<FileEntry>, keyOf: FileEntry -> string,
                    keys: seq<string>, groups: map<string, seq<FileEntry>>) {
    && keys == DistinctKeys(files, keyOf)
    && (forall k :: k in groups <==> k in keys)
    && (forall k | k in groups :: groups[k] == FilesWithKey(files, keyOf, k))
  }

  /** `files.reduce(...)`: for each file, create its key's group on first sight, then push
      the file onto it. `keys` is the accumulator's property order. */
  method GroupFiles(files: seq<FileEntry>) returns (keys: seq<string>, groups: map<string, seq<FileEntry>>)
    ensures keys == DistinctKeys(files, DateKey)
    ensures forall k :: k in groups <==> k in keys
    ensures forall k | k in groups :: groups[k] == FilesWithKey(files, DateKey, k)
  {
    keys, groups := [], map[];
    for i := 0 to |files|
      invariant Grouped(files[..i], DateKey, keys, groups)
    {
      var file := files[i];
      var key := DateKey(file);
      ghost var keys0, groups0 := keys, groups;
      if key !in groups {
        groups := groups[key := []];
        keys := keys + [key];
      }
      ghost var created := groups;
      groups := groups[key := groups[key] + [file]];
      GroupedStep(files, i, DateKey, keys0, groups0, keys, created, groups);
    }
    assert files[..|files|] == files;
  }

  /** The accumulator after one more file is grouped again: `created` is the accumulator
      once the key's group exists, `groups'` the one after the push. */
  lemma GroupedStep(files: seq<FileEntry>, i: nat, keyOf: FileEntry -> string,
                    keys: seq<string>, groups: map<string, seq<FileEntry>>,
                    keys': seq<string>, created: map<string, seq<FileEntry>>, groups': map<string, seq<FileEntry>>)
    requires i < |files| && Grouped(files[..i], keyOf, keys, groups)
    requires keyOf(files[i]) in groups ==> keys' == keys && created == groups
    requires keyOf(files[i]) !in groups ==> keys' == keys + [keyOf(files[i])] && created == groups[keyOf(files[i]) := []]
    requires keyOf(files[i]) in created && groups' == created[keyOf(files[i]) := created[keyOf(files[i])] + [files[i]]]
    ensures Grouped(files[..i + 1], keyOf, keys', groups')
  {
    var key := keyOf(files[i]);
    var pre, post := files[..i], files[..i + 1];
    assert post[..i] == pre && post[i] == files[i];
    if key !in groups {
      KeyListed(pre, keyOf, key);
    }
    assert groups'[key] == FilesWithKey(post, keyOf, key);
    forall k | k in groups' && k != key
      ensures groups'[k] == FilesWithKey(post, keyOf, k)
    {
      assert groups'[k] == groups[k];
    }
  }

  /** One step of the `reduce`: what the file at `i` adds to the keys and the groups. */
  lemma GroupStep(files: seq<FileEntry>, i: nat, keyOf: FileEntry -> string,
                  keys: seq<string>, groups: map<string, seq<FileEntry>>)
    requires i < |files|
    requires keys == DistinctKeys(files[..i], keyOf)
    requires forall k :: k in groups <==> k in keys
    requires forall k | k in groups :: groups[k] == FilesWithKey(files[..i], keyOf, k)
    ensures var key := keyOf(files[i]);
            && DistinctKeys(files[..i + 1], keyOf) == (if key in groups then keys else keys + [key])
            && FilesWithKey(files[..i + 1], keyOf, key) == (if key in groups then groups[key] else []) + [files[i]]
            && forall k | k != key :: FilesWithKey(files[..i + 1], keyOf, k) == FilesWithKey(files[..i], keyOf, k)
  {
    assert files[..i + 1][..i] == files[..i];
    KeyListed(files[..i], keyOf, keyOf(files[i]));
  }

  /** A key is listed exactly when some file has it; a key no file has has no files. */
  lemma {:induction false} KeyListed(files: seq<FileEntry>, keyOf: FileEntry -> string, key: string)
    ensures key in DistinctKeys(files, keyOf) <==> exists i | 0 <= i < |files| :: keyOf(files[i]) == key
    ensures key !in DistinctKeys(files, keyOf) ==> FilesWithKey(files, keyOf, key) == []
  {
    if files != [] {
      var prefix := files[..|files| - 1];
      KeyListed(prefix, keyOf, key);
      if key in DistinctKeys(files, keyOf) && keyOf(files[|files| - 1]) != key {
        var i :| 0 <= i < |prefix| && keyOf(prefix[i]) == key;
        assert files[i] == prefix[i];
      }
      if exists i | 0 <= i < |files| :: keyOf(files[i]) == key {
        var i :| 0 <= i < |files| && keyOf(files[i]) == key;
        if i < |prefix| {
          assert prefix[i] == files[i];
        }
      }
    }
  }

  lemma {:induction false} DistinctKeysDistinct(files: seq<FileEntry>, keyOf: FileEntry -> string)
    ensures Distinct(DistinctKeys(files, keyOf))
  {
    if files != [] {
      DistinctKeysDistinct(files[..|files| - 1], keyOf);
    }
  }

  /** The total size of the groups of `keys`. */
  function TotalSize(files: seq<FileEntry>, keyOf: FileEntry -> string, keys: seq<string>): nat {
    if keys == [] then 0
    else TotalSize(files, keyOf, keys[..|keys| - 1]) + |FilesWithKey(files, keyOf, keys[|keys| - 1])|
  }

  function Count(keys: seq<string>, key: string): nat {
    if keys == [] then 0 else Count(keys[..|keys| - 1], key) + (if keys[|keys| - 1] == key then 1 else 0)
  }

  lemma {:induction false} TotalSizeSnoc(files: seq<FileEntry>, keyOf: FileEntry -> string, f: FileEntry, keys: seq<string>)
    ensures TotalSize(files + [f], keyOf, keys) == TotalSize(files, keyOf, keys) + Count(keys, keyOf(f))
  {
    if keys != [] {
      TotalSizeSnoc(files, keyOf, f, keys[..|keys| - 1]);
      assert (files + [f])[..|files|] == files;
    }
  }

  lemma {:induction false} CountDistinct(keys: seq<string>, key: string)
    requires Distinct(keys)
    ensures Count(keys, key) == if key in keys then 1 else 0
  {
    if keys != [] {
      var prefix := keys[..|keys| - 1];
      CountDistinct(prefix, key);
      assert keys == prefix + [keys[|keys| - 1]];
      if keys[|keys| - 1] == key {
        assert key !in prefix by {
          forall i | 0 <= i < |prefix| ensures prefix[i] != key {
            assert prefix[i] == keys[i];
          }
        }
      }
    }
  }

  /** The groups partition the files: every file is in exactly the group of its key, so
      the group sizes add up to the number of files. */
  lemma {:induction false} Partition(files: seq<FileEntry>, keyOf: FileEntry -> string)
    ensures TotalSize(files, keyOf, DistinctKeys(files, keyOf)) == |files|
  {
    if files != [] {
      var prefix := files[..|files| - 1];
      var f := files[|files| - 1];
      var keys := DistinctKeys(prefix, keyOf);
      Partition(prefix, keyOf);
      assert files == prefix + [f];
      TotalSizeSnoc(prefix, keyOf, f, keys);
      DistinctKeysDistinct(prefix, keyOf);
      CountDistinct(keys, keyOf(f));
      if keyOf(f) !in keys {
        KeyListed(prefix, keyOf, keyOf(f));
        var all := keys + [keyOf(f)];
        assert all[..|all| - 1] == keys;
      }
    }
  }

  /** A file belongs to the group of its own key and to no other. */
  lemma {:induction false} FileInItsGroup(files: seq<FileEntry>, keyOf: FileEntry -> string, i: nat)
    requires i < |files|
    ensures files[i] in FilesWithKey(files, keyOf, keyOf(files[i]))
    ensures forall k | k != keyOf(files[i]) :: files[i] !in FilesWithKey(files, keyOf, k)
  {
    if i < |files| - 1 {
      FileInItsGroup(files[..|files| - 1], keyOf, i);
      assert files[i] == files[..|files| - 1][i];
    }
  }

  // ---------------------------------------------------------------------------------------
  // Ordering

  /** Descending key order: `b.localeCompare(a)`, with keys compared by code unit. */
  predicate KeysDescending(keys: seq<string>) {
    forall i, j | 0 <= i < j < |keys| :: LexLess(keys[j], keys[i])
  }

  /** Insert `k` into keys sorted descending, after every key not below it. */
  function InsertKey(sorted: seq<string>, k: string): seq<string> {
    if sorted == [] then [k]
    else if !LexLess(sorted[|sorted| - 1], k) then sorted + [k]
    else InsertKey(sorted[..|sorted| - 1], k) + [sorted[|sorted| - 1]]
  }

  /** The sorted entries' keys. */
  function SortKeys(keys: seq<string>): seq<string> {
    if keys == [] then [] else InsertKey(SortKeys(keys[..|keys| - 1]), keys[|keys| - 1])
  }

  /** Appending a key below every key keeps the keys descending. */
  lemma AppendBelow(r: seq<string>, k: string)
    requires KeysDescending(r) && forall x | x in r :: LexLess(k, x)
    ensures KeysDescending(r + [k])
  {
    var t := r + [k];
    forall i, j | 0 <= i < j < |t|
      ensures LexLess(t[j], t[i])
    {
      assert t[i] == r[i];
      if j < |r| {
        assert t[j] == r[j];
      }
    }
  }

  /** Inserting a new key keeps the keys descending and adds exactly that key. */
  lemma {:induction false} InsertKeySorted(sorted: seq<string>, k: string)
    requires KeysDescending(sorted) && k !in sorted
    ensures KeysDescending(InsertKey(sorted, k))
    ensures multiset(InsertKey(sorted, k)) == multiset(sorted) + multiset{k}
  {
    if sorted != [] {
      var init := sorted[..|sorted| - 1];
      var last := sorted[|sorted| - 1];
      assert sorted == init + [last];
      if !LexLess(last, k) {
        LexLessTotal(last, k);
        forall x | x in sorted
          ensures LexLess(k, x)
        {
          var p :| 0 <= p < |sorted| && sorted[p] == x;
          if p < |sorted| - 1 {
            LexLessTransitive(k, last, x);
          }
        }
        AppendBelow(sorted, k);
      } else {
        assert KeysDescending(init);
        assert k !in init;
        InsertKeySorted(init, k);
        var ins := InsertKey(init, k);
        forall x | x in ins
          ensures LexLess(last, x)
        {
          assert x in multiset(ins);
          if x != k {
            assert x in multiset(init);
            var p :| 0 <= p < |init| && init[p] == x;
            assert sorted[p] == x;
          }
        }
        AppendBelow(ins, last);
      }
    }
  }

  /** Sorting the keys gives the same keys, strictly descending. */
  lemma {:induction false} SortKeysSorted(keys: seq<string>)
    requires Distinct(keys)
    ensures KeysDescending(SortKeys(keys))
    ensures multiset(SortKeys(keys)) == multiset(keys)
  {
    if keys != [] {
      var init := keys[..|keys| - 1];
      var last := keys[|keys| - 1];
      assert keys == init + [last];
      SortKeysSorted(init);
      assert last !in multiset(SortKeys(init)) by {
        assert last !in init by {
          forall i | 0 <= i < |init| ensures init[i] != last {
            assert init[i] == keys[i];
          }
        }
      }
      InsertKeySorted(SortKeys(init), last);
    }
  }

  /** Files in descending order of update time. */
  predicate NewestFirst(fs: seq<FileEntry>) {
    forall i, j | 0 <= i < j < |fs| :: fs[i].updatedAt >= fs[j].updatedAt
  }

  /** The files of `fs` updated at `t`, in order. */
  function UpdatedAt(fs: seq<FileEntry>, t: int): seq<FileEntry> {
    if fs == [] then []
    else UpdatedAt(fs[..|fs| - 1], t) + (if fs[|fs| - 1].updatedAt == t then [fs[|fs| - 1]] else [])
  }

  /** Insert `f` into files sorted newest first, after every file at least as new, so files
      with equal timestamps keep their order (the comparator returns 0 for them). */
  function InsertFile(sorted: seq<FileEntry>, f: FileEntry): seq<FileEntry> {
    if sorted == [] then [f]
    else if sorted[|sorted| - 1].updatedAt >= f.updatedAt then sorted + [f]
    else InsertFile(sorted[..|sorted| - 1], f) + [sorted[|sorted| - 1]]
  }

  /** `files.sort((a, b) => new Date(b.updated_at) - new Date(a.updated_at))`, the stable
      sort of the engine. */
  function SortFiles(fs: seq<FileEntry>): seq<FileEntry> {
    if fs == [] then [] else InsertFile(SortFiles(fs[..|fs| - 1]), fs[|fs| - 1])
  }

  lemma {:induction false} InsertFilePermutes(sorted: seq<FileEntry>, f: FileEntry)
    ensures multiset(InsertFile(sorted, f)) == multiset(sorted) + multiset{f}
  {
    if sorted != [] && sorted[|sorted| - 1].updatedAt < f.updatedAt {
      var init := sorted[..|sorted| - 1];
      assert sorted == init + [sorted[|sorted| - 1]];
      InsertFilePermutes(init, f);
    }
  }

  lemma {:induction false} InsertFileSorted(sorted: seq<FileEntry>, f: FileEntry)
    requires NewestFirst(sorted)
    ensures NewestFirst(InsertFile(sorted, f))
  {
    if sorted != [] && sorted[|sorted| - 1].updatedAt < f.updatedAt {
      var init := sorted[..|sorted| - 1];
      var last := sorted[|sorted| - 1];
      assert sorted == init + [last];
      assert NewestFirst(init);
      InsertFileSorted(init, f);
      InsertFilePermutes(init, f);
      var ins := InsertFile(init, f);
      var r := ins + [last];
      forall i, j | 0 <= i < j < |r| ensures r[i].updatedAt >= r[j].updatedAt {
        if j == |ins| {
          assert r[i] == ins[i];
          assert r[i] in multiset(init) + multiset{f};
          if r[i] != f {
            var p :| 0 <= p < |init| && init[p] == r[i];
            assert sorted[p] == init[p];
          }
        } else {
          assert r[i] == ins[i] && r[j] == ins[j];
        }
      }
    }
  }

  /** Inserting keeps the files of each timestamp in order, `f` after the others. */
  lemma {:induction false} InsertFileStable(sorted: seq<FileEntry>, f: FileEntry, t: int)
    ensures UpdatedAt(InsertFile(sorted, f), t) == UpdatedAt(sorted, t) + UpdatedAt([f], t)
  {
    if sorted != [] {
      var init := sorted[..|sorted| - 1];
      var last := sorted[|sorted| - 1];
      assert sorted == init + [last];
      if last.updatedAt >= f.updatedAt {
        var r := sorted + [f];
        assert r[..|sorted|] == sorted;
      } else {
        InsertFileStable(init, f, t);
        var ins := InsertFile(init, f);
        var r := ins + [last];
        assert r[..|ins|] == ins;
        assert UpdatedAt(r, t) == UpdatedAt(ins, t) + UpdatedAt([last], t);
        assert UpdatedAt(sorted, t) == UpdatedAt(init, t) + UpdatedAt([last], t);
      }
    }
  }

  /** The files of a group are listed newest first, each file exactly as often as in the
      group, and files with the same timestamp in the order they were pushed. */
  lemma {:induction false} SortFilesSorted(fs: seq<FileEntry>)
    ensures NewestFirst(SortFiles(fs))
    ensures multiset(SortFiles(fs)) == multiset(fs)
    ensures forall t :: UpdatedAt(SortFiles(fs), t) == UpdatedAt(fs, t)
  {
    if fs != [] {
      var init := fs[..|fs| - 1];
      var last := fs[|fs| - 1];
      assert fs == init + [last];
      SortFilesSorted(init);
      InsertFileSorted(SortFiles(init), last);
      InsertFilePermutes(SortFiles(init), last);
      forall t ensures UpdatedAt(SortFiles(fs), t) == UpdatedAt(fs, t) {
        InsertFileStable(SortFiles(init), last, t);
        assert UpdatedAt(fs, t) == UpdatedAt(init, t) + UpdatedAt([last], t);
      }
    }
  }

  // ---------------------------------------------------------------------------------------
  // The rendered list

  /** One list item: the file it shows, and whether it is marked selected. Clicking it
      hands `file.name` to `onFileSelect`. */
  datatype ItemView = ItemView(file: FileEntry, selected: bool)

  /** One group: its key (shown as a date) and its items. */
  datatype GroupView = GroupView(key: string, items: seq<ItemView>)

  /** `currentFile === file.name`: never true while no file is open (`null`). */
  function Item(f: FileEntry, currentFile: Option<string>): (v: ItemView)
    ensures v.file == f
    ensures v.selected <==> currentFile.Some? && currentFile.value == f.name
  {
    ItemView(f, currentFile == Some(f.name))
  }

  function Group(files: seq<FileEntry>, key: string, currentFile: Option<string>): GroupView {
    var sorted := SortFiles(FilesWithKey(files, DateKey, key));
    GroupView(key, seq(|sorted|, i requires 0 <= i < |sorted| => Item(sorted[i], currentFile)))
  }

  /** What the sidebar renders. */
  function View(files: seq<FileEntry>, currentFile: Option<string>): seq<GroupView> {
    var keys := SortKeys(DistinctKeys(files, DateKey));
    seq(|keys|, i requires 0 <= i < |keys| => Group(files, keys[i], currentFile))
  }

  function Keys(v: seq<GroupView>): seq<string> {
    seq(|v|, i requires 0 <= i < |v| => v[i].key)
  }

  function Files(items: seq<ItemView>): seq<FileEntry> {
    seq(|items|, i requires 0 <= i < |items| => items[i].file)
  }

  /** The items of group `g` are the files with its key in sorted order, and an item is
      selected exactly when its file is the open one. */
  predicate GroupShows(files: seq<FileEntry>, g: GroupView, currentFile: Option<string>) {
    && Files(g.items) == SortFiles(FilesWithKey(files, DateKey, g.key))
    && forall i | 0 <= i < |g.items| :: g.items[i].selected <==> currentFile == Some(g.items[i].file.name)
  }

  /** A group shows the files with its key, sorted, and marks the open file. */
  lemma GroupShowsFiles(files: seq<FileEntry>, key: string, currentFile: Option<string>)
    ensures GroupShows(files, Group(files, key, currentFile), currentFile)
  {
    var g := Group(files, key, currentFile);
    assert Files(g.items) == SortFiles(FilesWithKey(files, DateKey, key));
  }

  /** The groups come in the order of the sorted keys. */
  lemma ViewKeys(files: seq<FileEntry>, currentFile: Option<string>)
    ensures Keys(View(files, currentFile)) == SortKeys(DistinctKeys(files, DateKey))
  {
  }

  /** The groups are the distinct date keys, each once, in descending key order; each
      group lists the files with that key, newest first and equal timestamps in input
      order, and marks the open file. */
  lemma ViewOrdered(files: seq<FileEntry>, currentFile: Option<string>)
    ensures multiset(Keys(View(files, currentFile))) == multiset(DistinctKeys(files, DateKey))
    ensures KeysDescending(Keys(View(files, currentFile)))
    ensures forall g | 0 <= g < |View(files, currentFile)| :: GroupShows(files, View(files, currentFile)[g], currentFile)
  {
    DistinctKeysDistinct(files, DateKey);
    SortKeysSorted(DistinctKeys(files, DateKey));
    ViewKeys(files, currentFile);
    var v := View(files, currentFile);
    forall g | 0 <= g < |v|
      ensures GroupShows(files, v[g], currentFile)
    {
      GroupShowsFiles(files, v[g].key, currentFile);
    }
  }
}
