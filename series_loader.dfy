/** The pure part of `load_images`: keep the listed names whose lower-cased
    form ends with an allowed extension, key each by the chosen ordering,
    sort stably by that key and number the result 1..N. The directory
    listing and the file timestamps are inputs. */
module SeriesLoader {
  import opened Outcomes
  import opened PyStr

  /** The value a file is ordered by: its name, or a ctime/mtime stamp. */
  datatype OrderKey = NameKey(name: string) | StampKey(stamp: real)

  /** `order`: by name (`ORDER_NAME`, the default) or by a timestamp that
      the filesystem reports for each name (`ORDER_CREATED`/`ORDER_MODIFIED`). */
  datatype Ordering = OrderName | OrderStamp(stampOf: string -> real)

  /** One entry of `image_series`. `index` is 0 until numbering, `temp` is 0
      until extraction, and `history` (the 'temps' key) is absent until the
      aggregation pass. */
  datatype ImageRecord = ImageRecord(
    fileName: string,
    order: OrderKey,
    index: nat,
    temp: int,
    history: Option<seq<int>>)

  /** Python's `<` on the keys of one run (all names or all stamps); keys of
      the two kinds never meet in one run, and are ordered names first. */
  predicate KeyLt(a: OrderKey, b: OrderKey)
  {
    match (a, b)
    case (NameKey(x), NameKey(y)) => StrLt(x, y)
    case (StampKey(x), StampKey(y)) => x < y
    case (NameKey(_), StampKey(_)) => true
    case (StampKey(_), NameKey(_)) => false
  }

  /** KeyLt is a strict total order. */
  lemma KeyLtStrictTotal(a: OrderKey, b: OrderKey, c: OrderKey)
    ensures !KeyLt(a, a)
    ensures KeyLt(a, b) && KeyLt(b, c) ==> KeyLt(a, c)
    ensures a == b || KeyLt(a, b) || KeyLt(b, a)
  {
    if a.NameKey? {
      StrLtIrreflexive(a.name);
      if b.NameKey? {
        StrLtTotal(a.name, b.name);
        if c.NameKey? && KeyLt(a, b) && KeyLt(b, c) {
          StrLtTransitive(a.name, b.name, c.name);
        }
      }
    }
  }

  /** The first clause of KeyLtStrictTotal on its own, for proofs that
      need only irreflexivity. */
  lemma KeyLtIrreflexive(a: OrderKey)
    ensures !KeyLt(a, a)
  {
    KeyLtStrictTotal(a, a, a);
  }

  /** "Not after": b is not ordered before a. */
  lemma KeyLeTransitive(a: OrderKey, b: OrderKey, c: OrderKey)
    requires !KeyLt(b, a) && !KeyLt(c, b)
    ensures !KeyLt(c, a)
  {
    KeyLtStrictTotal(a, b, c);
    KeyLtStrictTotal(c, a, b);
    KeyLtStrictTotal(b, c, a);
  }

  function KeyOf(ordering: Ordering, fileName: string): OrderKey
  {
    match ordering
    case OrderName => NameKey(fileName)
    case OrderStamp(stampOf) => StampKey(stampOf(fileName))
  }

  /** `s.endswith(tuple(suffixes))`: some suffix matches. */
  predicate EndsWithAny(s: string, suffixes: seq<string>)
  {
    suffixes != [] && (EndsWith(s, suffixes[0]) || EndsWithAny(s, suffixes[1..]))
  }

  /** `filename.lower().endswith(tuple(valid_file_extensions))`. */
  predicate IsImageFile(fileName: string, extensions: seq<string>)
  {
    EndsWithAny(Lower(fileName), extensions)
  }

  function NewRecord(fileName: string, key: OrderKey): ImageRecord
  {
    ImageRecord(fileName, key, 0, 0, None)
  }

  /** `file_list` after the listing loop: one record per accepted name, in
      listing order. */
  function Selected(listing: seq<string>, extensions: seq<string>, ordering: Ordering): seq<ImageRecord>
  {
    if listing == [] then []
    else
      var name := listing[|listing| - 1];
      Selected(listing[..|listing| - 1], extensions, ordering) + Accepted(name, extensions, ordering)
  }

  /** What one listing entry contributes to `file_list`. */
  function Accepted(name: string, extensions: seq<string>, ordering: Ordering): seq<ImageRecord>
  {
    if IsImageFile(name, extensions) then [NewRecord(name, KeyOf(ordering, name))] else []
  }

  /** The file names of `s`, in order. */
  function Names(s: seq<ImageRecord>): (r: seq<string>)
    ensures |r| == |s|
  {
    if s == [] then [] else Names(s[..|s| - 1]) + [s[|s| - 1].fileName]
  }

  /** Non-decreasing by key. */
  ghost predicate Sorted(s: seq<ImageRecord>)
  {
    forall i, j :: 0 <= i < j < |s| ==> !KeyLt(s[j].order, s[i].order)
  }

  /** The records of `s` whose key is `k`, in the order of `s`. */
  function KeyRun(s: seq<ImageRecord>, k: OrderKey): seq<ImageRecord>
  {
    if s == [] then []
    else KeyRun(s[..|s| - 1], k) + (if s[|s| - 1].order == k then [s[|s| - 1]] else [])
  }

  /** Stable insertion of `x` into `t`: after every record whose key is not
      greater than its own. */
  function Insert(t: seq<ImageRecord>, x: ImageRecord): seq<ImageRecord>
  {
    if t == [] then [x]
    else if KeyLt(x.order, t[|t| - 1].order) then Insert(t[..|t| - 1], x) + [t[|t| - 1]]
    else t + [x]
  }

  /** `sorted(file_list, key=lambda item: item['order'])`. Python's sort is
      stable, and a stable sort by a strict total order has one result, so
      insertion sort gives exactly what `sorted` gives. */
  function SortByKey(s: seq<ImageRecord>): seq<ImageRecord>
  {
    if s == [] then [] else Insert(SortByKey(s[..|s| - 1]), s[|s| - 1])
  }

  /** The numbering loop: the record at position i gets index i + 1. */
  function Numbered(s: seq<ImageRecord>): (r: seq<ImageRecord>)
    ensures |r| == |s|
  {
    seq(|s|, i requires 0 <= i < |s| => s[i].(index := i + 1))
  }

  /** `image_series` as `load_images` leaves it. */
  function LoadedSeries(listing: seq<string>, extensions: seq<string>, ordering: Ordering): seq<ImageRecord>
  {
    Numbered(SortByKey(Selected(listing, extensions, ordering)))
  }

  /** The accepted names of the listing whose key is `k`, in listing order. */
  function ListingRun(listing: seq<string>, extensions: seq<string>, ordering: Ordering, k: OrderKey): seq<string>
  {
    if listing == [] then []
    else
      var name := listing[|listing| - 1];
      ListingRun(listing[..|listing| - 1], extensions, ordering, k)
        + (if IsImageFile(name, extensions) && KeyOf(ordering, name) == k then [name] else [])
  }

  lemma {:induction false} NamesAppend(a: seq<ImageRecord>, b: seq<ImageRecord>)
    ensures Names(a + b) == Names(a) + Names(b)
  {
    if b == [] {
      assert a + b == a;
    } else {
      NamesAppend(a, b[..|b| - 1]);
      assert (a + b)[..|a + b| - 1] == a + b[..|b| - 1];
    }
  }

  lemma {:induction false} KeyRunAppend(a: seq<ImageRecord>, b: seq<ImageRecord>, k: OrderKey)
    ensures KeyRun(a + b, k) == KeyRun(a, k) + KeyRun(b, k)
  {
    if b == [] {
      assert a + b == a;
    } else {
      var b' := b[..|b| - 1];
      KeyRunAppend(a, b', k);
      assert (a + b)[..|a + b| - 1] == a + b';
    }
  }

  /** Inserting `x` adds it to the contents. */
  lemma {:induction false} InsertPermutes(t: seq<ImageRecord>, x: ImageRecord)
    ensures multiset(Insert(t, x)) == multiset(t) + multiset{x}
  {
    if t != [] {
      var init, last := t[..|t| - 1], t[|t| - 1];
      assert t == init + [last];
      if KeyLt(x.order, last.order) {
        InsertPermutes(init, x);
        assert Insert(t, x) == Insert(init, x) + [last];
      } else {
        assert Insert(t, x) == t + [x];
      }
    }
  }

  /** ... and its name to the names. */
  lemma {:induction false} InsertKeepsNames(t: seq<ImageRecord>, x: ImageRecord)
    ensures multiset(Names(Insert(t, x))) == multiset(Names(t)) + multiset{x.fileName}
  {
    if t != [] {
      var init, last := t[..|t| - 1], t[|t| - 1];
      if KeyLt(x.order, last.order) {
        InsertKeepsNames(init, x);
        var ins := Insert(init, x);
        assert Insert(t, x) == ins + [last];
        assert (ins + [last])[..|ins|] == ins;
        assert Names(t) == Names(init) + [last.fileName];
      } else {
        assert Insert(t, x) == t + [x];
        assert (t + [x])[..|t|] == t;
      }
    } else {
      assert [x][..0] == [];
    }
  }

  /** Inserting `x` puts it at the end of its key's run. */
  lemma {:induction false} InsertKeyRun(t: seq<ImageRecord>, x: ImageRecord, k: OrderKey)
    ensures KeyRun(Insert(t, x), k) == KeyRun(t, k) + (if x.order == k then [x] else [])
  {
    if t == [] {
      KeyRunSnoc([], x, k);
      assert [] + [x] == [x];
    } else if KeyLt(x.order, t[|t| - 1].order) {
      InsertKeyRun(t[..|t| - 1], x, k);
      InsertKeyRunBefore(t, x, k);
    } else {
      KeyRunSnoc(t, x, k);
    }
  }

  /** When `x` goes before the last record, which has a different key, the
      runs are those of the shorter insertion with that record added. */
  lemma InsertKeyRunBefore(t: seq<ImageRecord>, x: ImageRecord, k: OrderKey)
    requires t != [] && KeyLt(x.order, t[|t| - 1].order)
    requires KeyRun(Insert(t[..|t| - 1], x), k) == KeyRun(t[..|t| - 1], k) + (if x.order == k then [x] else [])
    ensures KeyRun(Insert(t, x), k) == KeyRun(t, k) + (if x.order == k then [x] else [])
  {
    var init, last := t[..|t| - 1], t[|t| - 1];
    var ins := Insert(init, x);
    assert Insert(t, x) == ins + [last];
    assert KeyRun(t, k) == KeyRun(init, k) + (if last.order == k then [last] else []);
    KeyRunSnoc(ins, last, k);
    KeyLtIrreflexive(x.order);
    if x.order == k {
      assert last.order != k;
    } else {
      assert KeyRun(ins, k) == KeyRun(init, k) + [];
    }
  }

  /** Appending one record extends the run of its key by that record. */
  lemma KeyRunSnoc(s: seq<ImageRecord>, r: ImageRecord, k: OrderKey)
    ensures KeyRun(s + [r], k) == KeyRun(s, k) + (if r.order == k then [r] else [])
  {
    assert (s + [r])[..|s|] == s;
  }

  /** Inserting into a sorted sequence keeps it sorted. */
  lemma {:induction false} InsertSorted(t: seq<ImageRecord>, x: ImageRecord)
    requires Sorted(t)
    ensures Sorted(Insert(t, x))
  {
    if t != [] {
      var init, last := t[..|t| - 1], t[|t| - 1];
      if KeyLt(x.order, last.order) {
        InsertSorted(init, x);
        InsertPermutes(init, x);
        var ins := Insert(init, x);
        forall i, j | 0 <= i < j < |ins| + 1
          ensures !KeyLt((ins + [last])[j].order, (ins + [last])[i].order)
        {
          if j == |ins| {
            var e := ins[i];
            assert e in multiset(ins);
            if e == x {
              KeyLtStrictTotal(x.order, last.order, x.order);
            } else {
              assert e in multiset(init);
              var m :| 0 <= m < |init| && init[m] == e;
              assert t[m] == e;
            }
          }
        }
      } else {
        forall i | 0 <= i < |t| ensures !KeyLt(x.order, t[i].order) {
          if i < |t| - 1 {
            KeyLeTransitive(t[i].order, last.order, x.order);
          }
        }
      }
    }
  }

  /** `sorted` returns a sorted sequence. */
  lemma {:induction false} SortByKeySorted(s: seq<ImageRecord>)
    ensures Sorted(SortByKey(s))
  {
    if s != [] {
      SortByKeySorted(s[..|s| - 1]);
      InsertSorted(SortByKey(s[..|s| - 1]), s[|s| - 1]);
    }
  }

  /** `sorted` returns a permutation of its input. */
  lemma {:induction false} SortByKeyPermutes(s: seq<ImageRecord>)
    ensures multiset(SortByKey(s)) == multiset(s)
  {
    if s != [] {
      var init, last := s[..|s| - 1], s[|s| - 1];
      SortByKeyPermutes(init);
      InsertPermutes(SortByKey(init), last);
      assert s == init + [last];
    }
  }

  /** ... and so keeps the file names with their multiplicity. */
  lemma {:induction false} SortByKeyKeepsNames(s: seq<ImageRecord>)
    ensures multiset(Names(SortByKey(s))) == multiset(Names(s))
  {
    if s != [] {
      var init, last := s[..|s| - 1], s[|s| - 1];
      SortByKeyKeepsNames(init);
      InsertKeepsNames(SortByKey(init), last);
    }
  }

  /** `sorted` keeps the input order among records with equal keys. */
  lemma {:induction false} SortByKeyStable(s: seq<ImageRecord>, k: OrderKey)
    ensures KeyRun(SortByKey(s), k) == KeyRun(s, k)
  {
    if s != [] {
      SortByKeyStable(s[..|s| - 1], k);
      InsertKeyRun(SortByKey(s[..|s| - 1]), s[|s| - 1], k);
    }
  }

  /** The accepted names, with multiplicity, are exactly the listing's names
      that end with an allowed extension. */
  lemma {:induction false} SelectedNames(listing: seq<string>, extensions: seq<string>, ordering: Ordering, name: string)
    ensures multiset(Names(Selected(listing, extensions, ordering)))[name]
         == if IsImageFile(name, extensions) then multiset(listing)[name] else 0
  {
    if listing != [] {
      var init, last := listing[..|listing| - 1], listing[|listing| - 1];
      SelectedNames(init, extensions, ordering, name);
      SelectedNamesStep(listing, extensions, ordering);
      CountStep(Names(Selected(listing, extensions, ordering)), Names(Selected(init, extensions, ordering)),
                listing, name, IsImageFile(name, extensions), IsImageFile(last, extensions));
    }
  }

  /** One more listing entry adds its name when it is accepted. */
  lemma SelectedNamesStep(listing: seq<string>, extensions: seq<string>, ordering: Ordering)
    requires listing != []
    ensures var last := listing[|listing| - 1];
      Names(Selected(listing, extensions, ordering))
        == Names(Selected(listing[..|listing| - 1], extensions, ordering)) + if IsImageFile(last, extensions) then [last] else []
  {
    var last := listing[|listing| - 1];
    NamesAppend(Selected(listing[..|listing| - 1], extensions, ordering), Accepted(last, extensions, ordering));
    AcceptedNames(last, extensions, ordering);
  }

  /** The counting step of `SelectedNames`, with acceptance as plain booleans. */
  lemma CountStep(all: seq<string>, prev: seq<string>, listing: seq<string>, name: string, acceptName: bool, acceptLast: bool)
    requires listing != []
    requires all == prev + if acceptLast then [listing[|listing| - 1]] else []
    requires multiset(prev)[name] == if acceptName then multiset(listing[..|listing| - 1])[name] else 0
    requires listing[|listing| - 1] == name ==> acceptName == acceptLast
    ensures multiset(all)[name] == if acceptName then multiset(listing)[name] else 0
  {
    var init, last := listing[..|listing| - 1], listing[|listing| - 1];
    var added := if acceptLast then [last] else [];
    assert multiset(prev + added)[name] == multiset(prev)[name] + multiset(added)[name];
    assert listing == init + [last];
    assert multiset(listing)[name] == multiset(init)[name] + multiset([last])[name];
    if last != name {
      assert multiset([last])[name] == 0;
    }
  }

  /** An entry contributes its own name exactly when it is accepted. */
  lemma AcceptedNames(name: string, extensions: seq<string>, ordering: Ordering)
    ensures Names(Accepted(name, extensions, ordering)) == if IsImageFile(name, extensions) then [name] else []
  {
    assert [NewRecord(name, KeyOf(ordering, name))][..0] == [];
  }

  /** ... and to the run of key `k` exactly when, besides, its key is `k`. */
  lemma AcceptedRun(name: string, extensions: seq<string>, ordering: Ordering, k: OrderKey)
    ensures Names(KeyRun(Accepted(name, extensions, ordering), k))
         == if IsImageFile(name, extensions) && KeyOf(ordering, name) == k then [name] else []
  {
    var added := Accepted(name, extensions, ordering);
    if added != [] {
      assert added[..0] == [];
      assert KeyRun(added, k) == if KeyOf(ordering, name) == k then added else [];
    }
  }

  /** Every selected record has an allowed extension and its ordering key. */
  lemma {:induction false} SelectedRecords(listing: seq<string>, extensions: seq<string>, ordering: Ordering, rec: ImageRecord)
    requires rec in Selected(listing, extensions, ordering)
    ensures IsImageFile(rec.fileName, extensions) && rec.order == KeyOf(ordering, rec.fileName)
  {
    var init, last := listing[..|listing| - 1], listing[|listing| - 1];
    if rec in Selected(init, extensions, ordering) {
      SelectedRecords(init, extensions, ordering, rec);
    }
  }

  /** Names with key `k` are selected in listing order. */
  lemma {:induction false} SelectedRuns(listing: seq<string>, extensions: seq<string>, ordering: Ordering, k: OrderKey)
    ensures Names(KeyRun(Selected(listing, extensions, ordering), k)) == ListingRun(listing, extensions, ordering, k)
  {
    if listing != [] {
      var init, last := listing[..|listing| - 1], listing[|listing| - 1];
      SelectedRuns(init, extensions, ordering, k);
      var prev := Selected(init, extensions, ordering);
      var added := Accepted(last, extensions, ordering);
      KeyRunAppend(prev, added, k);
      NamesAppend(KeyRun(prev, k), KeyRun(added, k));
      AcceptedRun(last, extensions, ordering, k);
    }
  }

  lemma NumberedKeepsRecords(s: seq<ImageRecord>, k: OrderKey)
    ensures Names(Numbered(s)) == Names(s)
    ensures Names(KeyRun(Numbered(s), k)) == Names(KeyRun(s, k))
    decreases |s|
  {
    if s != [] {
      var init := s[..|s| - 1];
      assert Numbered(s)[..|s| - 1] == Numbered(init);
      NumberedKeepsRecords(init, k);
      NamesAppend(KeyRun(Numbered(init), k), if Numbered(s)[|s| - 1].order == k then [Numbered(s)[|s| - 1]] else []);
      NamesAppend(KeyRun(init, k), if s[|s| - 1].order == k then [s[|s| - 1]] else []);
    }
  }

  /** What `load_images` promises about `image_series`: it holds exactly the
      accepted names (with their multiplicity in the listing), each keyed by
      the ordering; it is non-decreasing by key; names with equal keys keep
      their listing order; and the indices are 1..N in position order. */
  lemma LoadedSeriesCorrect(listing: seq<string>, extensions: seq<string>, ordering: Ordering)
    ensures var r := LoadedSeries(listing, extensions, ordering);
      && (forall name :: multiset(Names(r))[name] == if IsImageFile(name, extensions) then multiset(listing)[name] else 0)
      && (forall i :: 0 <= i < |r| ==> IsImageFile(r[i].fileName, extensions) && r[i].order == KeyOf(ordering, r[i].fileName))
      && (forall i, j :: 0 <= i < j < |r| ==> !KeyLt(r[j].order, r[i].order))
      && (forall k :: Names(KeyRun(r, k)) == ListingRun(listing, extensions, ordering, k))
      && (forall i :: 0 <= i < |r| ==> r[i].index == i + 1)
  {
    LoadedNames(listing, extensions, ordering);
    LoadedKeys(listing, extensions, ordering);
    LoadedSorted(listing, extensions, ordering);
    forall k ensures Names(KeyRun(LoadedSeries(listing, extensions, ordering), k)) == ListingRun(listing, extensions, ordering, k) {
      LoadedStable(listing, extensions, ordering, k);
    }
  }

  lemma LoadedNames(listing: seq<string>, extensions: seq<string>, ordering: Ordering)
    ensures forall name :: multiset(Names(LoadedSeries(listing, extensions, ordering)))[name]
                        == if IsImageFile(name, extensions) then multiset(listing)[name] else 0
  {
    var sel := Selected(listing, extensions, ordering);
    SortByKeyKeepsNames(sel);
    NumberedKeepsRecords(SortByKey(sel), NameKey(""));
    forall name ensures multiset(Names(sel))[name] == if IsImageFile(name, extensions) then multiset(listing)[name] else 0 {
      SelectedNames(listing, extensions, ordering, name);
    }
  }

  lemma LoadedKeys(listing: seq<string>, extensions: seq<string>, ordering: Ordering)
    ensures var r := LoadedSeries(listing, extensions, ordering);
      forall i :: 0 <= i < |r| ==> IsImageFile(r[i].fileName, extensions) && r[i].order == KeyOf(ordering, r[i].fileName)
  {
    var sel := Selected(listing, extensions, ordering);
    var sorted := SortByKey(sel);
    SortByKeyPermutes(sel);
    forall i | 0 <= i < |sorted|
      ensures IsImageFile(sorted[i].fileName, extensions) && sorted[i].order == KeyOf(ordering, sorted[i].fileName)
    {
      assert sorted[i] in multiset(sel);
      SelectedRecords(listing, extensions, ordering, sorted[i]);
    }
  }

  lemma LoadedSorted(listing: seq<string>, extensions: seq<string>, ordering: Ordering)
    ensures var r := LoadedSeries(listing, extensions, ordering);
      forall i, j :: 0 <= i < j < |r| ==> !KeyLt(r[j].order, r[i].order)
  {
    SortByKeySorted(Selected(listing, extensions, ordering));
  }

  lemma LoadedStable(listing: seq<string>, extensions: seq<string>, ordering: Ordering, k: OrderKey)
    ensures Names(KeyRun(LoadedSeries(listing, extensions, ordering), k)) == ListingRun(listing, extensions, ordering, k)
  {
    var sel := Selected(listing, extensions, ordering);
    NumberedKeepsRecords(SortByKey(sel), k);
    SortByKeyStable(sel, k);
    SelectedRuns(listing, extensions, ordering, k);
  }
}
