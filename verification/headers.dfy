/**
 The `headers` handler (handlers.rs:51-70): every request header except the
 proxy headers a fronting nginx adds, collected into a map ordered by name.

 The map is modelled as an association list kept strictly sorted by key,
 which is what iterating the `BTreeMap` yields. Collecting the headers in
 iteration order inserts them one by one, a later value for a name
 replacing an earlier one, so the last value of a repeated header wins.
 */
module Headers {
  import opened Http

  /** The headers the handler drops (handlers.rs:52-61). */
  const ProxyHeaders: seq<string> := [
    "x-forwarded-for",
    "x-forwarded-host",
    "x-forwarded-port",
    "x-forwarded-proto",
    "x-forwarded-scheme",
    "x-real-ip",
    "x-request-id",
    "x-scheme"
  ]

  /** Stands in for a value that is not valid text. */
  const InvalidString: string := "invalid string"

  /** The order of `str` keys: lexicographic by character, a proper prefix
      first. */
  predicate Below(a: string, b: string)
    decreases |a|
  {
    if |a| == 0 then |b| > 0
    else if |b| == 0 then false
    else if a[0] != b[0] then a[0] < b[0]
    else Below(a[1..], b[1..])
  }

  lemma {:induction false} BelowIrreflexive(a: string)
    ensures !Below(a, a)
    decreases |a|
  {
    if |a| > 0 {
      BelowIrreflexive(a[1..]);
    }
  }

  lemma {:induction false} BelowTransitive(a: string, b: string, c: string)
    requires Below(a, b) && Below(b, c)
    ensures Below(a, c)
    decreases |a|
  {
    if |a| > 0 && a[0] == b[0] && b[0] == c[0] {
      BelowTransitive(a[1..], b[1..], c[1..]);
    }
  }

  lemma {:induction false} BelowTotal(a: string, b: string)
    requires a != b
    ensures Below(a, b) || Below(b, a)
    decreases |a|
  {
    if |a| > 0 && |b| > 0 && a[0] == b[0] {
      assert a == [a[0]] + a[1..] && b == [b[0]] + b[1..];
      BelowTotal(a[1..], b[1..]);
    }
  }

  datatype Entry = Entry(key: string, value: string)

  /** Keys strictly ascend, so each key occurs once. */
  predicate Sorted(r: seq<Entry>) {
    forall i, j :: 0 <= i < j < |r| ==> Below(r[i].key, r[j].key)
  }

  function Keys(r: seq<Entry>): set<string> {
    set i | 0 <= i < |r| :: r[i].key
  }

  /** The value stored under `key`, if any. */
  function Lookup(r: seq<Entry>, key: string): Option<string>
    decreases |r|
  {
    if |r| == 0 then None
    else if r[0].key == key then Some(r[0].value)
    else Lookup(r[1..], key)
  }

  lemma KeysCons(e: Entry, r: seq<Entry>)
    ensures Keys([e] + r) == {e.key} + Keys(r)
  {
    var s := [e] + r;
    assert s[0].key == e.key;
    forall key | key in Keys(r) ensures key in Keys(s) {
      var i :| 0 <= i < |r| && r[i].key == key;
      assert s[i + 1].key == key;
    }
    forall key | key in Keys(s) ensures key in {e.key} + Keys(r) {
      var i :| 0 <= i < |s| && s[i].key == key;
      if i > 0 { assert r[i - 1].key == key; }
    }
  }

  lemma SortedCons(e: Entry, r: seq<Entry>)
    requires Sorted(r)
    requires forall j :: 0 <= j < |r| ==> Below(e.key, r[j].key)
    ensures Sorted([e] + r)
  {
    var s := [e] + r;
    forall i, j | 0 <= i < j < |s| ensures Below(s[i].key, s[j].key) {
      if i > 0 { assert s[i] == r[i - 1] && s[j] == r[j - 1]; }
      else { assert s[j] == r[j - 1]; }
    }
  }

  /** In a sorted list, every entry is the one `Lookup` finds for its key. */
  lemma {:induction false} LookupMember(r: seq<Entry>, i: nat)
    requires Sorted(r) && i < |r|
    ensures Lookup(r, r[i].key) == Some(r[i].value)
    decreases i
  {
    if i > 0 {
      BelowIrreflexive(r[0].key);
      assert r[0].key != r[i].key;
      assert r[1..][i - 1] == r[i];
      LookupMember(r[1..], i - 1);
    }
  }

  /** `BTreeMap::insert`: add `key`, replacing the value it had. */
  function Insert(r: seq<Entry>, key: string, value: string): (r': seq<Entry>)
    requires Sorted(r)
    ensures Sorted(r')
    ensures Keys(r') == Keys(r) + {key}
    ensures Lookup(r', key) == Some(value)
    ensures forall other :: other != key ==> Lookup(r', other) == Lookup(r, other)
    decreases |r|
  {
    if |r| == 0 then
      assert [Entry(key, value)][0].key == key;
      [Entry(key, value)]
    else if r[0].key == key then
      var r' := [Entry(key, value)] + r[1..];
      InsertReplaces(r, key, value);
      r'
    else if Below(key, r[0].key) then
      var r' := [Entry(key, value)] + r;
      InsertBefore(r, key, value);
      r'
    else
      var rest := Insert(r[1..], key, value);
      InsertAfter(r, key, value, rest);
      [r[0]] + rest
  }

  lemma InsertReplaces(r: seq<Entry>, key: string, value: string)
    requires Sorted(r) && |r| > 0 && r[0].key == key
    ensures Sorted([Entry(key, value)] + r[1..])
    ensures Keys([Entry(key, value)] + r[1..]) == Keys(r) + {key}
    ensures forall other :: other != key ==> Lookup([Entry(key, value)] + r[1..], other) == Lookup(r, other)
  {
    assert r == [r[0]] + r[1..];
    KeysCons(r[0], r[1..]);
    KeysCons(Entry(key, value), r[1..]);
    SortedCons(Entry(key, value), r[1..]);
  }

  lemma InsertBefore(r: seq<Entry>, key: string, value: string)
    requires Sorted(r) && |r| > 0 && Below(key, r[0].key)
    ensures Sorted([Entry(key, value)] + r)
    ensures Keys([Entry(key, value)] + r) == Keys(r) + {key}
  {
    forall j | 0 <= j < |r| ensures Below(key, r[j].key) {
      if j > 0 { BelowTransitive(key, r[0].key, r[j].key); }
    }
    KeysCons(Entry(key, value), r);
    SortedCons(Entry(key, value), r);
  }

  lemma InsertAfter(r: seq<Entry>, key: string, value: string, rest: seq<Entry>)
    requires Sorted(r) && |r| > 0 && r[0].key != key && !Below(key, r[0].key)
    requires Sorted(rest) && Keys(rest) == Keys(r[1..]) + {key}
    ensures Sorted([r[0]] + rest)
    ensures Keys([r[0]] + rest) == Keys(r) + {key}
  {
    BelowTotal(key, r[0].key);
    forall j | 0 <= j < |rest| ensures Below(r[0].key, rest[j].key) {
      assert rest[j].key in Keys(rest);
      if rest[j].key != key {
        var i :| 0 <= i < |r[1..]| && r[1..][i].key == rest[j].key;
        assert r[i + 1].key == rest[j].key;
      }
    }
    SortedCons(r[0], rest);
    assert r == [r[0]] + r[1..];
    KeysCons(r[0], r[1..]);
    KeysCons(r[0], rest);
  }

  /** The text a header value is reported with (handlers.rs:65). */
  function Render(v: HeaderValue): (s: string)
    ensures IsText(v) ==> ToStr(v) == Some(s)
    ensures !IsText(v) ==> s == InvalidString
  {
    match ToStr(v)
    case Some(s) => s
    case None => InvalidString
  }

  /** What the handler reports for `name`: nothing for a proxy header or a
      header the request lacks, otherwise the text of its last value. */
  function Reported(h: HeaderMap, name: string): Option<string> {
    if name in ProxyHeaders then None
    else match Last(h, name)
      case None => None
      case Some(v) => Some(Render(v))
  }

  /** The map the `headers` handler builds from the request's headers, in
      iteration order (handlers.rs:62-66). */
  function Reflect(h: HeaderMap): (r: seq<Entry>)
    ensures Sorted(r)
    ensures forall name :: Lookup(r, name) == Reported(h, name)
    decreases |h|
  {
    if |h| == 0 then []
    else
      var r := Reflect(h[..|h| - 1]);
      var header := h[|h| - 1];
      if header.name in ProxyHeaders then r
      else Insert(r, header.name, Render(header.value))
  }

  /** No proxy header reaches the reflected map, and every key it has
      names a header of the request. */
  lemma ReflectOmitsProxies(h: HeaderMap)
    ensures var r := Reflect(h);
            forall i :: 0 <= i < |r| ==> r[i].key !in ProxyHeaders && Names(h, r[i].key)
  {
    var r := Reflect(h);
    forall i | 0 <= i < |r| ensures r[i].key !in ProxyHeaders && Names(h, r[i].key) {
      LookupMember(r, i);
    }
  }

  /** Every header of the request other than a proxy header is a key of the
      reflected map. */
  lemma ReflectKeepsOthers(h: HeaderMap, i: nat)
    requires i < |h| && h[i].name !in ProxyHeaders
    ensures h[i].name in Keys(Reflect(h))
  {
    assert Names(h, h[i].name);
    LookupFound(Reflect(h), h[i].name);
  }

  /** A header that occurs more than once is reported with the text of its
      last value. */
  lemma ReflectLastValueWins(h: HeaderMap, name: string, i: nat)
    requires LastAt(h, i, name) && name !in ProxyHeaders
    ensures Lookup(Reflect(h), name) == Some(Render(h[i].value))
  {
    assert Names(h, name);
    var v := Last(h, name);
    var i' :| LastAt(h, i', name) && h[i'].value == v.value;
    assert !(i' < i) && !(i < i');
  }

  /** The reflected map depends only on each name's last value, not on how
      headers of different names interleave: any iteration order that keeps
      the values of one name in insertion order yields the same map. */
  lemma ReflectOrderIndependent(h1: HeaderMap, h2: HeaderMap)
    requires forall name :: Last(h1, name) == Last(h2, name)
    ensures Reflect(h1) == Reflect(h2)
  {
    forall key ensures Lookup(Reflect(h1), key) == Lookup(Reflect(h2), key) {
      assert Reported(h1, key) == Reported(h2, key);
    }
    SortedUnique(Reflect(h1), Reflect(h2));
  }

  /** A sorted association list is determined by its lookups. */
  lemma {:induction false} SortedUnique(a: seq<Entry>, b: seq<Entry>)
    requires Sorted(a) && Sorted(b)
    requires forall key :: Lookup(a, key) == Lookup(b, key)
    ensures a == b
    decreases |a|
  {
    if |a| == 0 {
      assert |b| > 0 ==> Lookup(b, b[0].key).Some?;
    } else {
      assert Lookup(a, a[0].key).Some?;
      assert |b| > 0;
      if a[0].key != b[0].key {
        BelowTotal(a[0].key, b[0].key);
        if Below(a[0].key, b[0].key) {
          LookupBelowHead(b, a[0].key);
        } else {
          LookupBelowHead(a, b[0].key);
        }
        assert false;
      }
      var head := a[0].key;
      assert b[0].key == head && a[0].value == b[0].value;
      TailLacksHead(a);
      TailLacksHead(b);
      forall key ensures Lookup(a[1..], key) == Lookup(b[1..], key) {
        if key != head {
          assert Lookup(a, key) == Lookup(a[1..], key);
          assert Lookup(b, key) == Lookup(b[1..], key);
        }
      }
      SortedUnique(a[1..], b[1..]);
      assert a == [a[0]] + a[1..] && b == [b[0]] + b[1..];
    }
  }

  /** A key below the smallest key of a sorted list is not in it. */
  lemma LookupBelowHead(r: seq<Entry>, key: string)
    requires Sorted(r) && |r| > 0 && Below(key, r[0].key)
    ensures Lookup(r, key) == None
  {
    forall j | 0 <= j < |r| ensures r[j].key != key {
      BelowIrreflexive(key);
      if j > 0 && r[j].key == key {
        BelowTransitive(key, r[0].key, r[j].key);
      }
    }
    LookupAbsent(r, key);
  }

  /** The tail of a sorted list does not hold its head's key. */
  lemma TailLacksHead(r: seq<Entry>)
    requires Sorted(r) && |r| > 0
    ensures Lookup(r[1..], r[0].key) == None
  {
    forall j | 0 <= j < |r[1..]| ensures r[1..][j].key != r[0].key {
      assert r[1..][j] == r[j + 1];
      BelowIrreflexive(r[0].key);
    }
    LookupAbsent(r[1..], r[0].key);
  }

  lemma {:induction false} LookupAbsent(r: seq<Entry>, key: string)
    requires forall j :: 0 <= j < |r| ==> r[j].key != key
    ensures Lookup(r, key) == None
    decreases |r|
  {
    if |r| > 0 {
      assert forall j :: 0 <= j < |r[1..]| ==> r[1..][j] == r[j + 1];
      LookupAbsent(r[1..], key);
    }
  }

  lemma {:induction false} LookupFound(r: seq<Entry>, key: string)
    requires Lookup(r, key).Some?
    ensures key in Keys(r)
    decreases |r|
  {
    if r[0].key == key {
      assert r[0].key in Keys(r);
    } else {
      LookupFound(r[1..], key);
      KeysCons(r[0], r[1..]);
      assert r == [r[0]] + r[1..];
    }
  }
}
