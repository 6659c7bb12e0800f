/** `parseOriginalSheet` of app/page.tsx: from the rows of the original
    localisation sheet it builds an exact-match dictionary (the last row with
    a key wins) and the list of all (key, value) pairs stably sorted by
    descending key length. */
module TranslationIndex {
  import opened Wrappers

  /** One row of the original sheet, reduced to its source text and its
      translation. */
  datatype Entry = Entry(key: string, value: string)

  /** A sheet row as the sheet reader yields it: column header to cell text. */
  type Row = map<string, string>

  /** A workbook: sheet name to the sheet's rows. */
  type Workbook = map<string, seq<Row>>

  /** The two lookup structures handed to the substitution passes. */
  datatype ReplaceData = ReplaceData(dict: map<string, string>, sorted: seq<Entry>)

  datatype SheetError = SheetNotFound(message: string)

  // ---------------------------------------------------------------------
  // The exact-match dictionary.

  /** Entry `i` is the last one carrying its key. */
  predicate IsLastWithKey(es: seq<Entry>, i: nat)
    requires i < |es|
  {
    forall j :: i < j < |es| ==> es[j].key != es[i].key
  }

  /** The `reduce` that stores every row's value under its key, later rows
      overwriting earlier ones. */
  function Dictionary(es: seq<Entry>): map<string, string> {
    if |es| == 0 then map[]
    else Dictionary(es[..|es| - 1])[es[|es| - 1].key := es[|es| - 1].value]
  }

  /** The dictionary has exactly the keys of the rows. */
  lemma {:induction false} DictionaryKeys(es: seq<Entry>)
    ensures forall k :: k in Dictionary(es) <==> exists i :: 0 <= i < |es| && es[i].key == k
  {
    if |es| > 0 {
      var init := es[..|es| - 1];
      DictionaryKeys(init);
      assert forall i :: 0 <= i < |init| ==> init[i] == es[i];
      forall k | k in Dictionary(es)
        ensures exists i :: 0 <= i < |es| && es[i].key == k
      {
        if k != es[|es| - 1].key {
          assert k in Dictionary(init);
          var i :| 0 <= i < |init| && init[i].key == k;
          assert es[i].key == k;
        }
      }
    }
  }

  /** Last write wins: a key's value is the target of the last row carrying
      that key. */
  lemma {:induction false} DictionaryLastWriteWins(es: seq<Entry>, i: nat)
    requires i < |es| && IsLastWithKey(es, i)
    ensures es[i].key in Dictionary(es) && Dictionary(es)[es[i].key] == es[i].value
  {
    if i < |es| - 1 {
      var init := es[..|es| - 1];
      assert init[i] == es[i];
      assert IsLastWithKey(init, i);
      DictionaryLastWriteWins(init, i);
    }
  }

  // ---------------------------------------------------------------------
  // The list sorted by descending key length.

  /** Keys never get longer along the list. */
  predicate SortedByKeyLength(es: seq<Entry>) {
    forall i, j :: 0 <= i < j < |es| ==> |es[i].key| >= |es[j].key|
  }

  /** The entries whose key has length `n`, in their order. A stable sort
      keeps each of these subsequences as it was. */
  function WithKeyLength(es: seq<Entry>, n: nat): seq<Entry> {
    if |es| == 0 then []
    else (if |es[0].key| == n then [es[0]] else []) + WithKeyLength(es[1..], n)
  }

  /** Places `e` before the first entry whose key is not longer than its own. */
  function Insert(e: Entry, s: seq<Entry>): (r: seq<Entry>)
    requires SortedByKeyLength(s)
    ensures SortedByKeyLength(r)
    ensures |r| == |s| + 1
    ensures multiset(r) == multiset(s) + multiset{e}
    ensures r[0] == e || (|s| > 0 && r[0] == s[0])
  {
    if |s| == 0 then [e]
    else if |s[0].key| <= |e.key| then [e] + s
    else
      var rest := Insert(e, s[1..]);
      var r := [s[0]] + rest;
      assert |s[0].key| >= |rest[0].key|;
      assert SortedByKeyLength(r) by {
        forall i, j | 0 <= i < j < |r|
          ensures |r[i].key| >= |r[j].key|
        {
          if i > 0 {
            assert r[i] == rest[i - 1] && r[j] == rest[j - 1];
          } else if j > 1 {
            assert |rest[0].key| >= |rest[j - 1].key|;
          }
        }
      }
      assert s == [s[0]] + s[1..];
      r
  }

  /** Inserting `e` adds it in front of the entries of its own key length
      and leaves the other lengths alone. */
  lemma {:induction false} InsertWithKeyLength(e: Entry, s: seq<Entry>, n: nat)
    requires SortedByKeyLength(s)
    ensures WithKeyLength(Insert(e, s), n) == (if |e.key| == n then [e] else []) + WithKeyLength(s, n)
  {
    if |s| == 0 {
      assert Insert(e, s) == [e] + s;
      WithKeyLengthCons(e, s, n);
    } else if |s[0].key| <= |e.key| {
      assert Insert(e, s) == [e] + s;
      WithKeyLengthCons(e, s, n);
    } else {
      var rest := Insert(e, s[1..]);
      InsertWithKeyLength(e, s[1..], n);
      assert Insert(e, s) == [s[0]] + rest;
      InsertBehindHead(s[0], rest, s[1..], e, n);
      assert s == [s[0]] + s[1..];
    }
  }

  /** Keeping the head in front: if `e` joins the filter of `xs` from the
      front, it joins the filter of `[x] + xs` behind `x`'s contribution,
      which for a longer `x` is nothing. */
  lemma InsertBehindHead(x: Entry, rest: seq<Entry>, xs: seq<Entry>, e: Entry, n: nat)
    requires |x.key| > |e.key|
    requires WithKeyLength(rest, n) == (if |e.key| == n then [e] else []) + WithKeyLength(xs, n)
    ensures WithKeyLength([x] + rest, n) == (if |e.key| == n then [e] else []) + WithKeyLength([x] + xs, n)
  {
    WithKeyLengthCons(x, rest, n);
    WithKeyLengthCons(x, xs, n);
  }

  /** The filter on a list with a known first entry. */
  lemma WithKeyLengthCons(x: Entry, xs: seq<Entry>, n: nat)
    ensures WithKeyLength([x] + xs, n) == (if |x.key| == n then [x] else []) + WithKeyLength(xs, n)
  {
    assert ([x] + xs)[1..] == xs;
  }

  /** `Array.prototype.sort` with comparator `b.key.length - a.key.length`:
      sorted by descending key length, a permutation of the input, and stable,
      i.e. the entries of each key length keep their relative order. */
  function SortByKeyLength(es: seq<Entry>): (r: seq<Entry>)
    ensures SortedByKeyLength(r)
    ensures |r| == |es|
    ensures multiset(r) == multiset(es)
  {
    if |es| == 0 then []
    else
      assert es == [es[0]] + es[1..];
      Insert(es[0], SortByKeyLength(es[1..]))
  }

  /** The sort is stable: for every key length, the entries of that length
      appear in the same relative order as in the input. */
  lemma {:induction false} SortIsStable(es: seq<Entry>, n: nat)
    ensures WithKeyLength(SortByKeyLength(es), n) == WithKeyLength(es, n)
  {
    if |es| > 0 {
      SortIsStable(es[1..], n);
      InsertWithKeyLength(es[0], SortByKeyLength(es[1..]), n);
    }
  }

  // ---------------------------------------------------------------------
  // First-match lookup, as `sortedMapData.find(item => item.key === k)`.

  /** Entry `i` is the first one whose key is `k`. */
  predicate FirstWithKey(es: seq<Entry>, k: string, i: nat) {
    i < |es| && es[i].key == k && forall j :: 0 <= j < i ==> es[j].key != k
  }

  /** The value of the first entry whose key is `k`. */
  function Find(es: seq<Entry>, k: string): (r: Option<string>)
    ensures r.None? <==> forall i :: 0 <= i < |es| ==> es[i].key != k
    ensures r.Some? ==> exists i: nat :: FirstWithKey(es, k, i) && es[i].value == r.value
  {
    if |es| == 0 then None
    else if es[0].key == k then Some(es[0].value)
    else
      var r := Find(es[1..], k);
      assert forall i :: 1 <= i < |es| ==> es[i] == es[1..][i - 1];
      assert r.Some? ==> exists i: nat :: FirstWithKey(es, k, i) && es[i].value == r.value by {
        if r.Some? {
          var i: nat :| FirstWithKey(es[1..], k, i) && es[1..][i].value == r.value;
          assert FirstWithKey(es, k, i + 1);
        }
      }
      r
  }

  /** Only entries of the key's own length can match it. */
  lemma {:induction false} FindWithinKeyLength(es: seq<Entry>, k: string)
    ensures Find(WithKeyLength(es, |k|), k) == Find(es, k)
  {
    if |es| > 0 {
      var rest := WithKeyLength(es[1..], |k|);
      FindWithinKeyLength(es[1..], k);
      if |es[0].key| == |k| {
        FindCons(es[0], rest, k);
        assert es == [es[0]] + es[1..];
        FindCons(es[0], es[1..], k);
      } else {
        assert WithKeyLength(es, |k|) == rest;
      }
    }
  }

  /** `Find` on a list with a known first entry. */
  lemma FindCons(e: Entry, es: seq<Entry>, k: string)
    ensures Find([e] + es, k) == if e.key == k then Some(e.value) else Find(es, k)
  {
    assert ([e] + es)[1..] == es;
  }

  /** The stable sort never changes which row a first-match lookup finds:
      among duplicate keys it is still the earliest row. */
  lemma FirstMatchIsEarliestRow(es: seq<Entry>, k: string)
    ensures Find(SortByKeyLength(es), k) == Find(es, k)
  {
    FindWithinKeyLength(es, k);
    FindWithinKeyLength(SortByKeyLength(es), k);
    SortIsStable(es, |k|);
  }

  /** With the same key twice, the dictionary keeps the later value while the
      first-match lookup in the sorted list finds the earlier one. */
  lemma DuplicateKeysDisagree()
    ensures var es := [Entry("a", "1"), Entry("a", "2")];
      && Dictionary(es)["a"] == "2"
      && Find(SortByKeyLength(es), "a") == Some("1")
  {
    var es := [Entry("a", "1"), Entry("a", "2")];
    assert IsLastWithKey(es, 1);
    DictionaryLastWriteWins(es, 1);
    FirstMatchIsEarliestRow(es, "a");
  }

  // ---------------------------------------------------------------------
  // Building both structures from a sheet.

  /** Every row of the sheet carries both named columns. */
  predicate HasColumns(rows: seq<Row>, source: string, target: string) {
    forall i :: 0 <= i < |rows| ==> source in rows[i] && target in rows[i]
  }

  /** The `(key, value)` pair of every row, in row order. */
  function Entries(rows: seq<Row>, source: string, target: string): (es: seq<Entry>)
    requires HasColumns(rows, source, target)
    ensures |es| == |rows|
    ensures forall i :: 0 <= i < |rows| ==> es[i] == Entry(rows[i][source], rows[i][target])
  {
    seq(|rows|, i requires 0 <= i < |rows| => Entry(rows[i][source], rows[i][target]))
  }

  /** Every key of the sorted list has a dictionary entry and the other way
      round: both come from the same rows. */
  predicate WellFormed(data: ReplaceData) {
    && (forall i :: 0 <= i < |data.sorted| ==> data.sorted[i].key in data.dict)
    && (forall k :: k in data.dict ==> exists i :: 0 <= i < |data.sorted| && data.sorted[i].key == k)
  }

  const NotFoundPrefix: string := "sheet name not found:"

  /** The error text for a missing sheet, naming the sheet. */
  function NotFoundMessage(name: string): (m: string)
    ensures |m| == |NotFoundPrefix| + |name|
    ensures m[..|NotFoundPrefix|] == NotFoundPrefix && m[|NotFoundPrefix|..] == name
  {
    NotFoundPrefix + name
  }

  /** Distinct missing sheets give distinct messages: the message says which
      sheet was asked for. */
  lemma NotFoundMessageNamesSheet(a: string, b: string)
    ensures NotFoundMessage(a) == NotFoundMessage(b) ==> a == b
  {
    assert NotFoundMessage(a)[|NotFoundPrefix|..] == a;
    assert NotFoundMessage(b)[|NotFoundPrefix|..] == b;
  }

  /** The error text as the source builds it: it appends the looked-up sheet,
      which on this path is `undefined`, instead of the sheet's name. */
  function NotFoundMessageAsWritten(name: string): string {
    NotFoundPrefix + "undefined"
  }

  /** The message as written is the same for every missing sheet, so it never
      says which sheet was asked for. */
  lemma NotFoundMessageAsWrittenLosesName(a: string, b: string)
    ensures NotFoundMessageAsWritten(a) == NotFoundMessageAsWritten(b)
    ensures NotFoundMessageAsWritten("Sheet1") != NotFoundMessage("Sheet1")
  {
    assert NotFoundMessage("Sheet1")[|NotFoundPrefix|..] == "Sheet1";
    assert NotFoundMessageAsWritten("Sheet1")[|NotFoundPrefix|..] == "undefined";
  }

  /** An entry of a permutation is an entry of the original. */
  lemma PermutationMember(a: seq<Entry>, b: seq<Entry>, i: nat)
    requires multiset(a) == multiset(b) && i < |a|
    ensures exists j :: 0 <= j < |b| && b[j] == a[i]
  {
    assert a[i] in multiset(a);
    assert a[i] in multiset(b);
    assert a[i] in b;
  }

  /** `data` is the index of the rows `es`: the dictionary maps every key of
      the rows to the value of the last row carrying it, and the list holds
      every row, sorted by descending key length and stable among keys of
      equal length. */
  ghost predicate Indexes(data: ReplaceData, es: seq<Entry>) {
    && WellFormed(data)
    && (forall k :: k in data.dict <==> exists i :: 0 <= i < |es| && es[i].key == k)
    && (forall i :: 0 <= i < |es| && IsLastWithKey(es, i) ==> data.dict[es[i].key] == es[i].value)
    && |data.sorted| == |es|
    && multiset(data.sorted) == multiset(es)
    && SortedByKeyLength(data.sorted)
    && (forall n: nat :: WithKeyLength(data.sorted, n) == WithKeyLength(es, n))
  }

  /** The dictionary and the sorted list built from `es` index `es`. */
  lemma BuildIndexes(es: seq<Entry>)
    ensures Indexes(ReplaceData(Dictionary(es), SortByKeyLength(es)), es)
  {
    var data := ReplaceData(Dictionary(es), SortByKeyLength(es));
    DictionaryKeys(es);
    forall n: nat
      ensures WithKeyLength(data.sorted, n) == WithKeyLength(es, n)
    {
      SortIsStable(es, n);
    }
    forall i | 0 <= i < |es| && IsLastWithKey(es, i)
      ensures es[i].key in data.dict && data.dict[es[i].key] == es[i].value
    {
      DictionaryLastWriteWins(es, i);
    }
    forall i | 0 <= i < |data.sorted|
      ensures data.sorted[i].key in data.dict
    {
      PermutationMember(data.sorted, es, i);
    }
    forall k | k in data.dict
      ensures exists i :: 0 <= i < |data.sorted| && data.sorted[i].key == k
    {
      var j :| 0 <= j < |es| && es[j].key == k;
      PermutationMember(es, data.sorted, j);
    }
  }

  /** `parseOriginalSheet`: fails exactly when the sheet is missing, and
      otherwise returns the index of the sheet's rows. */
  function ParseOriginalSheet(book: Workbook, sheetName: string, source: string, target: string)
    : (r: Result<ReplaceData, SheetError>)
    requires sheetName in book ==> HasColumns(book[sheetName], source, target)
    ensures r.Failure? <==> sheetName !in book
    ensures r.Failure? ==> r.error == SheetNotFound(NotFoundMessage(sheetName))
    ensures r.Success? ==> Indexes(r.value, Entries(book[sheetName], source, target))
  {
    if sheetName !in book then Failure(SheetNotFound(NotFoundMessage(sheetName)))
    else
      var es := Entries(book[sheetName], source, target);
      BuildIndexes(es);
      Success(ReplaceData(Dictionary(es), SortByKeyLength(es)))
  }
}
