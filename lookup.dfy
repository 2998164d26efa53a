/** Table.lookup of table.py on the parcel table: every stored parcel, in
    items() order, that meets all the criteria given. */
module Lookups {
  import opened Util
  import opened Tables
  import opened Graphs
  import opened Parcels

  /** The id_ argument: absent, an int, a comma-separated string of ints,
      or a value of another type (which the source lets every item pass). */
  datatype IdQuery = AnyId | IdInt(n: int) | IdText(text: string) | IdOtherType

  /** The deadline argument: absent, a string ('None', 'not None' or any
      other, which no deadline equals), or an int. */
  datatype DeadlineQuery = AnyDeadline | DeadlineText(text: string) | DeadlineInt(n: int)

  /** The keyword arguments of lookup; None (or null) leaves one out. */
  datatype Criteria = Criteria(
    id: IdQuery,
    address: Option<string>,
    city: Option<string>,
    state: Option<string>,
    zip: Option<string>,
    mass: Option<string>,
    node: Node?,
    status: Option<string>,
    deadline: DeadlineQuery)

  const NoCriteria := Criteria(AnyId, None, None, None, None, None, null, None, AnyDeadline)

  /** The loop over the comma-separated ids: `include and item.id ==
      int(word)` evaluates int(word) only while include still holds, so a
      word that is not a number raises (None) only then. */
  function IdWordsMatch(words: seq<string>, id: int, keep: bool): Option<bool>
  {
    if words == [] then Some(keep)
    else if !keep then Some(false)
    else match ParseInt(words[0])
      case None => None
      case Some(v) => IdWordsMatch(words[1..], id, id == v)
  }

  /** The id criterion holds exactly when every word reads as the item's
      id. */
  lemma {:induction false} IdWordsMatchAll(words: seq<string>, id: int)
    ensures IdWordsMatch(words, id, true) == Some(true) <==> forall i :: 0 <= i < |words| ==> ParseInt(words[i]) == Some(id)
  {
    if words != [] {
      match ParseInt(words[0])
      case None =>
      case Some(v) =>
        if v == id {
          IdWordsMatchAll(words[1..], id);
          assert forall i :: 1 <= i < |words| ==> words[i] == words[1..][i - 1];
        } else {
          IdWordsFalse(words[1..], id);
        }
    }
  }

  /** A word that is not a number raises only when every word before it
      matched the item's id. */
  lemma {:induction false} IdWordsMatchRaises(words: seq<string>, id: int)
    ensures IdWordsMatch(words, id, true).None? <==>
      exists i :: 0 <= i < |words| && ParseInt(words[i]).None? && forall j :: 0 <= j < i ==> ParseInt(words[j]) == Some(id)
  {
    if words != [] {
      match ParseInt(words[0])
      case None =>
      case Some(v) =>
        if v == id {
          IdWordsMatchRaises(words[1..], id);
          if IdWordsMatch(words[1..], id, true).None? {
            var i :| 0 <= i < |words[1..]| && ParseInt(words[1..][i]).None?
              && forall j :: 0 <= j < i ==> ParseInt(words[1..][j]) == Some(id);
            assert ParseInt(words[i + 1]).None?;
            forall j | 0 <= j < i + 1 ensures ParseInt(words[j]) == Some(id) {
              if j > 0 {
                assert words[j] == words[1..][j - 1];
              }
            }
          }
          if exists i :: 0 <= i < |words| && ParseInt(words[i]).None? && forall j :: 0 <= j < i ==> ParseInt(words[j]) == Some(id) {
            var i :| 0 <= i < |words| && ParseInt(words[i]).None? && forall j :: 0 <= j < i ==> ParseInt(words[j]) == Some(id);
            assert i > 0;
            assert ParseInt(words[1..][i - 1]).None?;
            forall j | 0 <= j < i - 1 ensures ParseInt(words[1..][j]) == Some(id) {
              assert words[1..][j] == words[j + 1];
            }
          }
        } else {
          IdWordsFalse(words[1..], id);
          forall i | 0 <= i < |words| && ParseInt(words[i]).None?
            ensures !(forall j :: 0 <= j < i ==> ParseInt(words[j]) == Some(id))
          {
            assert i > 0 && ParseInt(words[0]) != Some(id);
          }
        }
    }
  }

  /** Once the item has failed, the rest of the words are not read. */
  lemma {:induction false} IdWordsFalse(words: seq<string>, id: int)
    ensures IdWordsMatch(words, id, false) == Some(false)
  {
  }

  function IdOk(q: IdQuery, id: int): Option<bool> {
    match q
    case AnyId => Some(true)
    case IdInt(n) => Some(id == n)
    case IdText(t) => IdWordsMatch(SplitOn(t, ','), id, true)
    case IdOtherType => Some(true)
  }

  /** One word of the status criterion: '-word' must not occur in the
      status, any other word must (table.py:105-110). */
  predicate StatusWordOk(word: string, status: string) {
    if |word| > 0 && word[0] == '-' then !HasSubstring(status, word[1..])
    else HasSubstring(status, word)
  }

  predicate StatusOk(q: Option<string>, status: string) {
    q.Some? ==> forall w :: w in SplitOn(q.value, ',') ==> StatusWordOk(w, status)
  }

  predicate DeadlineOk(q: DeadlineQuery, deadline: Option<int>) {
    match q
    case AnyDeadline => true
    case DeadlineText(t) => if t == "None" then deadline.None? else if t == "not None" then deadline.Some? else false
    case DeadlineInt(n) => deadline == Some(n)
  }

  /** The attributes of a parcel the criteria look at, read at one moment. */
  datatype View = View(id: int, address: string, city: string, state: string, zip: string,
                       mass: string, node: Node?, status: string, deadline: Option<int>)

  function ViewOf(p: Parcel): View
    reads p
  {
    View(p.id, p.address, p.city, p.state, p.zip, p.mass, p.deliveryNode, p.status, p.deadline)
  }

  /** Whether a parcel meets every criterion given, or None where the id
      words make int() raise. */
  function Matches(c: Criteria, v: View): Option<bool>
  {
    var idOk := IdOk(c.id, v.id);
    if idOk.None? then None
    else Some(
      && idOk.value
      && (c.address.Some? ==> v.address == c.address.value)
      && (c.city.Some? ==> v.city == c.city.value)
      && (c.state.Some? ==> v.state == c.state.value)
      && (c.zip.Some? ==> v.zip == c.zip.value)
      && (c.mass.Some? ==> v.mass == c.mass.value)
      && (c.node != null ==> v.node == c.node)
      && StatusOk(c.status, v.status)
      && DeadlineOk(c.deadline, v.deadline))
  }

  /** Each parcel paired with its attributes. */
  function Snapshot(items: seq<Parcel>): (rows: seq<(Parcel, View)>)
    reads items
    ensures |rows| == |items|
    ensures forall i :: 0 <= i < |items| ==> rows[i] == (items[i], ViewOf(items[i]))
  {
    seq(|items|, i reads items requires 0 <= i < |items| => (items[i], ViewOf(items[i])))
  }

  /** Each parcel with the verdict of the loop body on it: Some(true) kept,
      Some(false) passed over, None raised. */
  function Verdicts(rows: seq<(Parcel, View)>, c: Criteria): (vs: seq<(Parcel, Option<bool>)>)
    ensures |vs| == |rows|
  {
    if rows == [] then []
    else Verdicts(rows[..|rows| - 1], c) + [(rows[|rows| - 1].0, Matches(c, rows[|rows| - 1].1))]
  }

  /** Verdict k is the loop body's verdict on row k. */
  lemma {:induction false} VerdictAt(rows: seq<(Parcel, View)>, c: Criteria, k: nat)
    requires k < |rows|
    ensures Verdicts(rows, c)[k] == (rows[k].0, Matches(c, rows[k].1))
  {
    var m := |rows| - 1;
    if k < m {
      VerdictAt(rows[..m], c, k);
    }
  }

  /** Verdict k belongs to the parcel of row k. */
  lemma {:induction false} VerdictParcel(rows: seq<(Parcel, View)>, c: Criteria, k: nat)
    requires k < |rows|
    ensures Verdicts(rows, c)[k].0 == rows[k].0
  {
    var m := |rows| - 1;
    if k < m {
      VerdictParcel(rows[..m], c, k);
    }
  }

  /** The kept parcels in order, or None once a verdict raises. */
  function Select(vs: seq<(Parcel, Option<bool>)>): Option<seq<Parcel>>
  {
    if vs == [] then Some([])
    else
      match Select(vs[..|vs| - 1])
      case None => None
      case Some(r) =>
        match vs[|vs| - 1].1
        case None => None
        case Some(b) => Some(if b then r + [vs[|vs| - 1].0] else r)
  }

  /** What lookup returns for the items of the table. */
  function Filter(items: seq<Parcel>, c: Criteria): Option<seq<Parcel>>
    reads items
  {
    Select(Verdicts(Snapshot(items), c))
  }

  /** Selecting from a concatenation selects from each part. */
  lemma {:induction false} SelectAppend(a: seq<(Parcel, Option<bool>)>, b: seq<(Parcel, Option<bool>)>)
    ensures Select(a + b) ==
      match Select(a)
      case None => None
      case Some(ra) => match Select(b) case None => None case Some(rb) => Some(ra + rb)
    decreases |b|
  {
    if b == [] {
      assert a + b == a;
      if Select(a).Some? {
        assert Select(a).value + [] == Select(a).value;
      }
    } else {
      var m := |b| - 1;
      assert (a + b)[..|a + b| - 1] == a + b[..m];
      assert (a + b)[|a + b| - 1] == b[m];
      SelectAppend(a, b[..m]);
      match Select(a)
      case None =>
      case Some(ra) =>
        match Select(b[..m])
        case None =>
        case Some(rb) =>
          assert ra + rb + [b[m].0] == ra + (rb + [b[m].0]);
    }
  }

  /** A verdict that raises makes every longer list raise too. */
  lemma SelectRaises(a: seq<(Parcel, Option<bool>)>, rest: seq<(Parcel, Option<bool>)>)
    requires Select(a).None?
    ensures Select(a + rest).None?
  {
    SelectAppend(a, rest);
  }

  /** One more verdict, as the loop takes it. */
  lemma SelectStep(vs: seq<(Parcel, Option<bool>)>, k: nat)
    requires k < |vs|
    ensures Select(vs[..k + 1]) ==
      match Select(vs[..k])
      case None => None
      case Some(r) =>
        match vs[k].1
        case None => None
        case Some(b) => Some(if b then r + [vs[k].0] else r)
  {
    assert vs[..k + 1][..k] == vs[..k];
  }

  /** When every verdict keeps, every parcel is kept, in order. */
  lemma {:induction false} SelectAll(vs: seq<(Parcel, Option<bool>)>)
    requires forall i :: 0 <= i < |vs| ==> vs[i].1 == Some(true)
    ensures Select(vs).Some?
    ensures |Select(vs).value| == |vs|
    ensures forall i :: 0 <= i < |vs| ==> Select(vs).value[i] == vs[i].0
  {
    if vs != [] {
      var m := |vs| - 1;
      SelectAll(vs[..m]);
      var r := Select(vs[..m]).value;
      assert Select(vs).value == r + [vs[m].0];
    }
  }

  /** With no criteria, lookup returns every item (table.py:60-125). */
  lemma FilterNoCriteria(items: seq<Parcel>)
    ensures Filter(items, NoCriteria) == Some(items)
  {
    var rows := Snapshot(items);
    var vs := Verdicts(rows, NoCriteria);
    forall i | 0 <= i < |vs| ensures vs[i].1 == Some(true) && vs[i].0 == items[i] {
      VerdictAt(rows, NoCriteria, i);
    }
    SelectAll(vs);
    assert Select(vs).value == items;
  }

  /** Select keeps exactly the parcels whose verdict keeps, and raises
      exactly when some verdict does. */
  lemma {:induction false} SelectMembers(vs: seq<(Parcel, Option<bool>)>)
    ensures Select(vs).None? <==> exists i :: 0 <= i < |vs| && vs[i].1.None?
    ensures Select(vs).Some? ==>
      forall p :: p in Select(vs).value <==> exists i :: 0 <= i < |vs| && vs[i] == (p, Some(true))
    ensures Select(vs).Some? ==> |Select(vs).value| <= |vs|
  {
    if vs != [] {
      var m := |vs| - 1;
      var front := vs[..m];
      SelectMembers(front);
      assert forall i :: 0 <= i < m ==> front[i] == vs[i];
      if Select(front).None? {
        var i :| 0 <= i < m && front[i].1.None?;
        assert vs[i].1.None?;
      }
    }
  }

  /** For the parcels of the table: lookup holds a parcel exactly when the
      parcel is stored and meets the criteria, and raises exactly when the
      check of some stored parcel does. */
  lemma FilterMembers(items: seq<Parcel>, c: Criteria)
    ensures Filter(items, c).None? <==> exists i :: 0 <= i < |items| && Matches(c, ViewOf(items[i])).None?
    ensures Filter(items, c).Some? ==>
      forall p :: p in Filter(items, c).value <==> p in items && Matches(c, ViewOf(p)) == Some(true)
  {
    var rows := Snapshot(items);
    var vs := Verdicts(rows, c);
    forall i | 0 <= i < |vs| ensures vs[i] == (items[i], Matches(c, ViewOf(items[i]))) {
      VerdictAt(rows, c, i);
    }
    SelectMembers(vs);
    if Filter(items, c).Some? {
      forall p ensures p in Filter(items, c).value <==> p in items && Matches(c, ViewOf(p)) == Some(true) {
        if p in items {
          var i :| 0 <= i < |items| && items[i] == p;
          assert vs[i] == (p, Matches(c, ViewOf(p)));
        }
      }
    }
  }

  /** The loop body of lookup for item k of the rows: its verdict. */
  method Include(item: Parcel, c: Criteria, ghost rows: seq<(Parcel, View)>, ghost k: nat)
    returns (r: Option<bool>)
    requires k < |rows| && rows[k].1 == ViewOf(item)
    ensures r == Verdicts(rows, c)[k].1
  {
    r := IncludeView(ViewOf(item), c);
    VerdictAt(rows, c, k);
  }

  /** The checks of the loop body, on the attributes of one item. */
  method IncludeView(item: View, c: Criteria) returns (r: Option<bool>)
    ensures r == Matches(c, item)
  {
    var idOk := IdMatches(c.id, item.id);
    if idOk.None? {
      return None;
    }
    var keep := idOk.value;
    if c.address.Some? {
      keep := keep && item.address == c.address.value;
    }
    if c.city.Some? {
      keep := keep && item.city == c.city.value;
    }
    if c.state.Some? {
      keep := keep && item.state == c.state.value;
    }
    if c.zip.Some? {
      keep := keep && item.zip == c.zip.value;
    }
    if c.mass.Some? {
      keep := keep && item.mass == c.mass.value;
    }
    if c.node != null {
      keep := keep && item.node == c.node;
    }
    if c.status.Some? {
      var ok := StatusMatches(c.status.value, item.status);
      keep := keep && ok;
    }
    if !c.deadline.AnyDeadline? {
      keep := keep && DeadlineOk(c.deadline, item.deadline);
    }
    r := Some(keep);
  }

  /** The id part of the loop body, which comes first, while the item is
      still included (table.py:81-89). */
  method IdMatches(q: IdQuery, id: int) returns (r: Option<bool>)
    ensures r == IdOk(q, id)
  {
    var keep := true;
    if q.IdInt? {
      keep := keep && id == q.n;
    } else if q.IdText? {
      var split := SplitOn(q.text, ',');
      var i := 0;
      while i < |split|
        invariant 0 <= i <= |split|
        invariant IdWordsMatch(split[i..], id, keep) == IdWordsMatch(split, id, true)
      {
        assert split[i..][1..] == split[i + 1..];
        if keep {
          var v := ParseInt(split[i]);
          if v.None? {
            return None;
          }
          keep := id == v.value;
        }
        i := i + 1;
      }
    }
    r := Some(keep);
  }

  /** The status loop: each word in turn, with '-' for "must not occur". */
  method StatusMatches(query: string, status: string) returns (keep: bool)
    ensures keep == StatusOk(Some(query), status)
  {
    var split := SplitOn(query, ',');
    keep := true;
    var i := 0;
    while i < |split|
      invariant 0 <= i <= |split|
      invariant keep == forall j :: 0 <= j < i ==> StatusWordOk(split[j], status)
    {
      var word := split[i];
      if |word| > 0 && word[0] == '-' {
        keep := keep && !HasSubstring(status, word[1..]);
      } else {
        keep := keep && HasSubstring(status, word);
      }
      i := i + 1;
    }
    assert forall w :: w in split ==> exists j :: 0 <= j < |split| && split[j] == w;
  }

  /** Table.lookup on the parcel table: the matching items in items() order,
      or None where the source raises ValueError. */
  method Lookup(t: Table<Parcel>, c: Criteria) returns (r: Option<seq<Parcel>>)
    ensures r == Filter(t.AllValues(), c)
  {
    ghost var bs := t.buckets[..];
    ghost var items := t.AllValues();
    ghost var rows := Snapshot(items);
    ghost var vs := Verdicts(rows, c);
    var found: seq<Parcel> := [];
    var b := 0;
    while b < t.buckets.Length
      invariant 0 <= b <= t.buckets.Length
      invariant |Flatten(bs[..b])| <= |rows|
      invariant Select(vs[..|Flatten(bs[..b])|]) == Some(found)
      invariant forall i :: 0 <= i < |rows| ==> rows[i].1 == ViewOf(rows[i].0)
    {
      var bucket := t.buckets[b];
      ghost var pos := |Flatten(bs[..b])|;
      BucketRows(bs, b, bucket, pos, rows);
      var next := LookupBucket(found, bucket, c, rows, vs, pos);
      if next.None? {
        SameSnapshot(items, rows);
        return None;
      }
      found := next.value;
      b := b + 1;
    }
    assert bs[..b] == bs;
    assert vs[..|vs|] == vs;
    SameSnapshot(items, rows);
    r := Some(found);
  }

  /** Rows that pair the items with what they read as now are their
      snapshot. */
  lemma SameSnapshot(items: seq<Parcel>, rows: seq<(Parcel, View)>)
    requires |rows| == |items|
    requires forall i :: 0 <= i < |rows| ==> rows[i].1 == ViewOf(rows[i].0)
    requires forall i :: 0 <= i < |items| ==> rows[i].0 == items[i]
    ensures Snapshot(items) == rows
  {
  }

  /** The inner loop of lookup over one bucket, whose items are the rows
      from `pos` on: it extends the matches so far by those of the bucket,
      or raises, in which case lookup as a whole raises. */
  method LookupBucket(found: seq<Parcel>, bucket: seq<(int, Parcel)>, c: Criteria,
      ghost rows: seq<(Parcel, View)>, ghost vs: seq<(Parcel, Option<bool>)>, ghost pos: nat)
    returns (r: Option<seq<Parcel>>)
    requires pos + |bucket| <= |rows| && vs == Verdicts(rows, c)
    requires forall j :: 0 <= j < |bucket| ==> rows[pos + j].0 == bucket[j].1
    requires forall i :: 0 <= i < |rows| ==> rows[i].1 == ViewOf(rows[i].0)
    requires Select(vs[..pos]) == Some(found)
    ensures r.Some? ==> Select(vs[..pos + |bucket|]) == r
    ensures r.None? ==> Select(vs).None?
  {
    var acc := found;
    var j := 0;
    while j < |bucket|
      invariant 0 <= j <= |bucket|
      invariant Select(vs[..pos + j]) == Some(acc)
      invariant forall i :: 0 <= i < |rows| ==> rows[i].1 == ViewOf(rows[i].0)
    {
      var item := bucket[j].1;
      SelectStep(vs, pos + j);
      VerdictParcel(rows, c, pos + j);
      var keep := Include(item, c, rows, pos + j);
      if keep.None? {
        assert vs == vs[..pos + j + 1] + vs[pos + j + 1..];
        SelectRaises(vs[..pos + j + 1], vs[pos + j + 1..]);
        return None;
      }
      if keep.value {
        acc := acc + [item];
      }
      j := j + 1;
    }
    r := Some(acc);
  }

  /** The rows of bucket b are those from the end of the buckets before it. */
  lemma BucketRows(bs: seq<seq<(int, Parcel)>>, b: nat, bucket: seq<(int, Parcel)>, pos: nat,
      rows: seq<(Parcel, View)>)
    requires b < |bs| && bucket == bs[b] && pos == |Flatten(bs[..b])|
    requires |rows| == |Values(Flatten(bs))|
    requires forall i :: 0 <= i < |rows| ==> rows[i].0 == Values(Flatten(bs))[i]
    ensures |Flatten(bs[..b + 1])| == pos + |bucket| <= |rows|
    ensures forall j :: 0 <= j < |bucket| ==> rows[pos + j].0 == bucket[j].1
  {
    FlattenNext(bs, b);
    ValuesIndex(Flatten(bs));
    forall j | 0 <= j < |bucket| ensures rows[pos + j].0 == bucket[j].1 {
      FlattenAt(bs, b, j);
    }
  }

  /** The entries of the first b + 1 buckets are those of the first b, then
      bucket b; all of them lie within the table's entries. */
  lemma FlattenNext<V>(bs: seq<seq<(int, V)>>, b: nat)
    requires b < |bs|
    ensures |Flatten(bs[..b + 1])| == |Flatten(bs[..b])| + |bs[b]|
    ensures |Flatten(bs[..b + 1])| <= |Flatten(bs)|
  {
    assert bs[..b + 1][..b] == bs[..b];
    assert bs == bs[..b + 1] + bs[b + 1..];
    FlattenAppend(bs[..b + 1], bs[b + 1..]);
  }

  /** Entry j of bucket b sits after the entries of the buckets before it. */
  lemma FlattenAt<V>(bs: seq<seq<(int, V)>>, b: nat, j: nat)
    requires b < |bs| && j < |bs[b]|
    ensures |Flatten(bs[..b])| + j < |Flatten(bs)|
    ensures Flatten(bs)[|Flatten(bs[..b])| + j] == bs[b][j]
  {
    assert bs[..b + 1][..b] == bs[..b];
    assert bs == bs[..b + 1] + bs[b + 1..];
    FlattenAppend(bs[..b + 1], bs[b + 1..]);
    assert Flatten(bs[..b + 1]) == Flatten(bs[..b]) + bs[b];
  }
}
