/** The query string of a request URL: `key=value` pairs joined by `&`, collected into the
    same multimap shape the headers use, and written back with a `[]` suffix on every key
    that carries more than one value. */
module QueryStrings {
  import opened Wrappers
  import opened Text
  import opened MultiMaps

  /** One match of the key/value pattern. */
  datatype Capture = Capture(key: string, value: string)

  /** A parsed query. `queryString` is never filled in by the program. */
  datatype Query = Query(data: MultiMap, queryString: Option<string>)
  {
    /** `get(name)`: the values in insertion order, or `None` when the name is absent or
        its list is empty. */
    function Get(name: string): (r: Option<seq<string>>)
      ensures r.Some? <==> name in data && data[name] != []
      ensures r.Some? ==> r.value == data[name]
    {
      if name in data && data[name] != [] then Some(data[name]) else None
    }

    /** `query_string()`. */
    function QueryString(): Option<string>
    {
      queryString
    }

    /** `to_string()` when the map is visited in `order`: each key's parameter text, the
        texts separated by `&`. */
    method ToString(order: seq<string>) returns (result: string)
      requires IsEnumeration(order, data.Keys)
      ensures result == FormatQuery(data, order)
    {
      result := "";
      if |order| == 0 {
        return;
      }
      result := FormatQueryParam(order[0], data[order[0]]);
      var i := 1;
      while i < |order|
        invariant 1 <= i <= |order|
        invariant result == Join(Params(data, order[..i]), "&")
      {
        var p := FormatQueryParam(order[i], data[order[i]]);
        ParamsSnoc(data, order[..i], order[i]);
        assert order[..i + 1] == order[..i] + [order[i]];
        JoinSnoc(Params(data, order[..i]), p, "&");
        result := result + "&" + p;
        i := i + 1;
      }
      assert order[..i] == order;
    }
  }

  /** `Query::new()`. */
  function New(): (q: Query)
    ensures q.data == map[] && q.queryString.None?
  {
    Query(map[], None)
  }

  // ---------------------------------------------------------------------------
  // Parsing

  /** A key as the pattern captures it: at least one character, none of them `=` or `&`. */
  predicate ValidKey(k: string)
  {
    k != [] && '=' !in k && '&' !in k
  }

  /** The capture found in one `&`-free piece of the query: leading `=` are skipped, the
      key runs up to the next `=` (or the end), and the value is everything after that
      `=`, or `""` when there is none. A piece of nothing but `=` yields no capture. */
  function PieceCapture(p: string): (r: Option<Capture>)
    requires '&' !in p
    ensures r.Some? ==> ValidKey(r.value.key) && '&' !in r.value.value
    ensures r.None? <==> forall k | 0 <= k < |p| :: p[k] == '='
  {
    var start := SkipChar(p, '=', 0);
    if start == |p| then None
    else
      var stop := FindChar(p, '=', start);
      assert p[start] in p[start..stop];
      Some(Capture(p[start..stop], if stop < |p| then p[stop + 1..] else ""))
  }

  /** None of the pieces holds an `&`. */
  predicate NoAmpersand(pieces: seq<string>)
  {
    forall k | 0 <= k < |pieces| :: '&' !in pieces[k]
  }

  /** The captures of a list of `&`-free pieces, in order. */
  function CapturesOf(pieces: seq<string>): (caps: seq<Capture>)
    requires NoAmpersand(pieces)
    ensures forall k | 0 <= k < |caps| :: ValidKey(caps[k].key) && '&' !in caps[k].value
    decreases |pieces|
  {
    if pieces == [] then []
    else
      (match PieceCapture(pieces[0]) case None => [] case Some(c) => [c])
      + CapturesOf(pieces[1..])
  }

  /** The successive matches `captures_iter` reports for the key/value pattern
      `([^=&]+)(=([^&]*))?`: a match never spans an `&` and each `&`-separated piece holds
      at most one, so the matches are those of the pieces in order. */
  function Captures(s: string): (caps: seq<Capture>)
    ensures forall k | 0 <= k < |caps| :: ValidKey(caps[k].key) && '&' !in caps[k].value
  {
    SplitCharFree(s, '&');
    CapturesOf(Split(s, "&"))
  }

  /** The pieces of a split on one character do not contain it. */
  lemma SplitCharFree(s: string, c: char)
    ensures forall k | 0 <= k < |Split(s, [c])| :: c !in Split(s, [c])[k]
  {
    SplitPiecesFree(s, [c]);
    forall k | 0 <= k < |Split(s, [c])| ensures c !in Split(s, [c])[k] {
      ContainsChar(Split(s, [c])[k], c);
    }
  }

  /** The loop body of `from_str` over `caps`, starting from `m`: each capture pushes its
      value onto its key's list. */
  function CollectInto(m: MultiMap, caps: seq<Capture>): MultiMap
    decreases |caps|
  {
    if caps == [] then m
    else CollectInto(Appended(m, caps[0].key, [caps[0].value]), caps[1..])
  }

  /** `Query::from_str(s)`: no pairs at all when `s` is blank. */
  function ParseQuery(s: string): (q: Query)
    ensures q.queryString.None?
  {
    Query(if Trim(s) == [] then map[] else CollectInto(map[], Captures(s)), None)
  }

  /** `Query::from_str(s)`, looping over the captures as the program does. */
  method FromStr(s: string) returns (q: Query)
    ensures q == ParseQuery(s)
  {
    var data: MultiMap := map[];
    if Trim(s) != [] {
      var caps := Captures(s);
      var i := 0;
      while i < |caps|
        invariant 0 <= i <= |caps|
        invariant CollectInto(data, caps[i..]) == CollectInto(map[], caps)
      {
        var key := caps[i].key;
        var val := caps[i].value;
        assert caps[i..][1..] == caps[i + 1..];
        data := Appended(data, key, [val]);
        i := i + 1;
      }
    }
    q := Query(data, None);
  }

  /** The values the captures carry for `k`, in order of appearance. */
  function ValuesFor(caps: seq<Capture>, k: string): seq<string>
    decreases |caps|
  {
    if caps == [] then []
    else (if caps[0].key == k then [caps[0].value] else []) + ValuesFor(caps[1..], k)
  }

  /** The keys the captures mention. */
  function KeysOf(caps: seq<Capture>): set<string>
  {
    set c | c in caps :: c.key
  }

  lemma KeysOfFirst(caps: seq<Capture>)
    requires caps != []
    ensures KeysOf(caps) == {caps[0].key} + KeysOf(caps[1..])
  {
    assert caps == [caps[0]] + caps[1..];
  }

  /** Collecting adds exactly the captured keys. */
  lemma {:induction false} CollectKeys(m: MultiMap, caps: seq<Capture>)
    ensures CollectInto(m, caps).Keys == m.Keys + KeysOf(caps)
    decreases |caps|
  {
    if caps != [] {
      var m' := Appended(m, caps[0].key, [caps[0].value]);
      CollectKeys(m', caps[1..]);
      KeysOfFirst(caps);
    }
  }

  /** Collecting grows each key's list by that key's captured values, in order of
      appearance. */
  lemma {:induction false} CollectValues(m: MultiMap, caps: seq<Capture>, k: string)
    ensures Values(CollectInto(m, caps), k) == Values(m, k) + ValuesFor(caps, k)
    decreases |caps|
  {
    if caps != [] {
      var m' := Appended(m, caps[0].key, [caps[0].value]);
      CollectValues(m', caps[1..], k);
      ValuesAppended(m, caps[0].key, [caps[0].value], k);
    }
  }

  /** A blank query string has no parameters. */
  lemma BlankQuery(s: string)
    requires AllWhitespace(s)
    ensures ParseQuery(s).data == map[]
  {
    TrimBlank(s);
  }

  /** A non-blank query string holds exactly the captured keys, each with its captured
      values in order of appearance and without any decoding. */
  lemma ParsedParameters(s: string, k: string)
    requires !AllWhitespace(s)
    ensures ParseQuery(s).data.Keys == KeysOf(Captures(s))
    ensures Values(ParseQuery(s).data, k) == ValuesFor(Captures(s), k)
  {
    TrimBlank(s);
    CollectKeys(map[], Captures(s));
    CollectValues(map[], Captures(s), k);
  }

  /** A piece with no `=` is a key whose value is `""`. */
  lemma KeyWithoutValue(key: string)
    requires ValidKey(key)
    ensures PieceCapture(key) == Some(Capture(key, ""))
  {
    assert key[0] != '=' by { assert key[0] in key; }
    assert SkipChar(key, '=', 0) == 0;
    FindCharEnd(key, '=', 0);
    assert key[0..|key|] == key;
  }

  /** A piece `key=value` is captured as that key and value. */
  lemma KeyWithValue(key: string, value: string)
    requires ValidKey(key) && '&' !in value
    ensures '&' !in key + "=" + value
    ensures PieceCapture(key + "=" + value) == Some(Capture(key, value))
  {
    var p := key + "=" + value;
    assert key[0] != '=' by { assert key[0] in key; }
    assert p[0] == key[0];
    assert SkipChar(p, '=', 0) == 0;
    FindCharIs(p, '=', 0, |key|);
    assert p[0..|key|] == key;
    assert p[|key| + 1..] == value;
  }

  /** `query_string()` is `None` for a new and for a parsed query. */
  lemma QueryStringAbsent(s: string)
    ensures New().QueryString() == None
    ensures ParseQuery(s).QueryString() == None
  {
  }

  // ---------------------------------------------------------------------------
  // Formatting

  /** The key `format_query_param` writes: `[]` is added exactly when there are two or
      more values. */
  function ParamName(k: string, vs: seq<string>): (n: string)
    ensures |vs| > 1 ==> n == k + "[]"
    ensures |vs| <= 1 ==> n == k
  {
    if |vs| > 1 then k + "[]" else k
  }

  /** One `name=value` text per value, in value order. */
  function Pairs(name: string, vs: seq<string>): (ps: seq<string>)
    ensures |ps| == |vs|
    decreases |vs|
  {
    if vs == [] then [] else [name + "=" + vs[0]] + Pairs(name, vs[1..])
  }

  /** `format_query_param(k, vs)`: `""` without values, otherwise `name=v1&name=v2...`. */
  function Param(k: string, vs: seq<string>): string
  {
    Join(Pairs(ParamName(k, vs), vs), "&")
  }

  /** The parameter texts of the keys in `order`. */
  function Params(d: MultiMap, order: seq<string>): (ps: seq<string>)
    requires forall i | 0 <= i < |order| :: order[i] in d
    ensures |ps| == |order|
    decreases |order|
  {
    if order == [] then [] else [Param(order[0], d[order[0]])] + Params(d, order[1..])
  }

  /** `to_string()` when the map is visited in `order`. */
  function FormatQuery(d: MultiMap, order: seq<string>): string
    requires forall i | 0 <= i < |order| :: order[i] in d
  {
    Join(Params(d, order), "&")
  }

  lemma {:induction false} ParamsSnoc(d: MultiMap, order: seq<string>, k: string)
    requires forall i | 0 <= i < |order| :: order[i] in d
    requires k in d
    ensures Params(d, order + [k]) == Params(d, order) + [Param(k, d[k])]
    decreases |order|
  {
    if order == [] {
      assert [k][1..] == [];
    } else {
      assert (order + [k])[1..] == order[1..] + [k];
      ParamsSnoc(d, order[1..], k);
    }
  }

  lemma {:induction false} PairsSnoc(name: string, vs: seq<string>, x: string)
    ensures Pairs(name, vs + [x]) == Pairs(name, vs) + [name + "=" + x]
    decreases |vs|
  {
    if vs == [] {
      assert [x][1..] == [];
    } else {
      assert (vs + [x])[1..] == vs[1..] + [x];
      PairsSnoc(name, vs[1..], x);
    }
  }

  /** `format_query_param(k, vs)`, building the text value by value. */
  method FormatQueryParam(k: string, vs: seq<string>) returns (result: string)
    ensures result == Param(k, vs)
  {
    result := "";
    var name := k;
    if |vs| > 1 {
      name := name + "[]";
    }
    if |vs| == 0 {
      return;
    }
    result := name + "=" + vs[0];
    var i := 1;
    while i < |vs|
      invariant 1 <= i <= |vs|
      invariant result == Join(Pairs(name, vs[..i]), "&")
    {
      assert vs[..i + 1] == vs[..i] + [vs[i]];
      PairsSnoc(name, vs[..i], vs[i]);
      JoinSnoc(Pairs(name, vs[..i]), name + "=" + vs[i], "&");
      result := result + "&" + name + "=" + vs[i];
      i := i + 1;
    }
    assert vs[..i] == vs;
  }

  /** No values, no text. */
  lemma ParamWithoutValues(k: string)
    ensures Param(k, []) == ""
  {
  }

  /** An empty query formats to `""`. */
  lemma FormatEmpty(d: MultiMap)
    ensures FormatQuery(d, []) == ""
  {
  }

  // ---------------------------------------------------------------------------
  // Round trip

  /** Keys that survive formatting and parsing: valid pattern keys not ending in `[]`
      (otherwise `a[]` with one value and `a` with two would collide). */
  predicate PlainKey(k: string)
  {
    ValidKey(k) && !(|k| >= 2 && k[|k| - 2..] == "[]")
  }

  /** Data that `to_string` followed by `from_str` reproduces under renamed keys. */
  predicate Reproducible(d: MultiMap)
  {
    NonEmptyLists(d)
    && (forall k | k in d :: PlainKey(k))
    && (forall k | k in d :: forall i | 0 <= i < |d[k]| :: '&' !in d[k][i])
  }

  lemma ParamNameValid(k: string, vs: seq<string>)
    requires ValidKey(k)
    ensures ValidKey(ParamName(k, vs))
  {
    if |vs| > 1 {
      assert k + "[]" == k + ['[', ']'];
    }
  }

  /** Distinct plain keys keep distinct parameter names. */
  lemma ParamNameInjective(k1: string, vs1: seq<string>, k2: string, vs2: seq<string>)
    requires PlainKey(k1) && PlainKey(k2) && k1 != k2
    ensures ParamName(k1, vs1) != ParamName(k2, vs2)
  {
    if |vs1| > 1 && |vs2| > 1 {
      assert ParamName(k1, vs1)[..|k1|] == k1;
      assert ParamName(k2, vs2)[..|k2|] == k2;
    }
  }

  /** The pairs of every key in `order`, in order. */
  function AllPairs(d: MultiMap, order: seq<string>): (ps: seq<string>)
    requires forall i | 0 <= i < |order| :: order[i] in d
    decreases |order|
  {
    if order == [] then []
    else Pairs(ParamName(order[0], d[order[0]]), d[order[0]]) + AllPairs(d, order[1..])
  }

  /** The captures the pairs of one key read back as. */
  function ParamCaps(name: string, vs: seq<string>): seq<Capture>
    decreases |vs|
  {
    if vs == [] then [] else [Capture(name, vs[0])] + ParamCaps(name, vs[1..])
  }

  /** The captures of every key in `order`, in order. */
  function AllCaps(d: MultiMap, order: seq<string>): seq<Capture>
    requires forall i | 0 <= i < |order| :: order[i] in d
    decreases |order|
  {
    if order == [] then []
    else ParamCaps(ParamName(order[0], d[order[0]]), d[order[0]]) + AllCaps(d, order[1..])
  }

  lemma {:induction false} JoinAppend(a: seq<string>, b: seq<string>, sep: string)
    requires |a| >= 1 && |b| >= 1
    ensures Join(a + b, sep) == Join(a, sep) + sep + Join(b, sep)
    decreases |a|
  {
    if |a| == 1 {
      assert a + b == [a[0]] + b;
      JoinCons(a[0], b, sep);
    } else {
      JoinAppend(a[1..], b, sep);
      assert a + b == [a[0]] + (a[1..] + b);
      JoinCons(a[0], a[1..] + b, sep);
      assert a == [a[0]] + a[1..];
      JoinCons(a[0], a[1..], sep);
    }
  }

  /** With no empty list, the query text is the pairs of all keys joined by `&`. */
  lemma {:induction false} FormatIsPairs(d: MultiMap, order: seq<string>)
    requires forall i | 0 <= i < |order| :: order[i] in d && d[order[i]] != []
    ensures FormatQuery(d, order) == Join(AllPairs(d, order), "&")
    decreases |order|
  {
    if |order| >= 2 {
      FormatIsPairs(d, order[1..]);
      var first := Pairs(ParamName(order[0], d[order[0]]), d[order[0]]);
      assert Params(d, order) == [Param(order[0], d[order[0]])] + Params(d, order[1..]);
      JoinCons(Param(order[0], d[order[0]]), Params(d, order[1..]), "&");
      assert AllPairs(d, order[1..]) != [] by {
        assert order[1..][0] == order[1];
      }
      JoinAppend(first, AllPairs(d, order[1..]), "&");
    } else if |order| == 1 {
      var first := Pairs(ParamName(order[0], d[order[0]]), d[order[0]]);
      assert order[1..] == [];
      assert Params(d, order) == [Param(order[0], d[order[0]])] + Params(d, order[1..]);
      assert Params(d, order) == [Param(order[0], d[order[0]])];
      assert AllPairs(d, order) == first + AllPairs(d, order[1..]);
      assert AllPairs(d, order[1..]) == [];
      assert first + [] == first;
    }
  }

  lemma {:induction false} PairsCaptures(name: string, vs: seq<string>)
    requires ValidKey(name)
    requires forall i | 0 <= i < |vs| :: '&' !in vs[i]
    ensures forall i | 0 <= i < |Pairs(name, vs)| :: '&' !in Pairs(name, vs)[i]
    ensures CapturesOf(Pairs(name, vs)) == ParamCaps(name, vs)
    decreases |vs|
  {
    if vs != [] {
      KeyWithValue(name, vs[0]);
      PairsCaptures(name, vs[1..]);
    }
  }

  lemma {:induction false} CapturesOfAppend(a: seq<string>, b: seq<string>)
    requires NoAmpersand(a)
    requires NoAmpersand(b)
    ensures CapturesOf(a + b) == CapturesOf(a) + CapturesOf(b)
    decreases |a|
  {
    if a == [] {
      assert a + b == b;
    } else {
      assert (a + b)[0] == a[0];
      assert (a + b)[1..] == a[1..] + b;
      CapturesOfAppend(a[1..], b);
      var h := match PieceCapture(a[0]) case None => [] case Some(c) => [c];
      calc {
        CapturesOf(a + b);
        h + CapturesOf(a[1..] + b);
        h + (CapturesOf(a[1..]) + CapturesOf(b));
        (h + CapturesOf(a[1..])) + CapturesOf(b);
      }
    }
  }

  lemma {:induction false} AllPairsCaptures(d: MultiMap, order: seq<string>)
    requires forall i | 0 <= i < |order| :: order[i] in d
    requires Reproducible(d)
    ensures NoAmpersand(AllPairs(d, order))
    ensures CapturesOf(AllPairs(d, order)) == AllCaps(d, order)
    decreases |order|
  {
    if order != [] {
      var k := order[0];
      var name := ParamName(k, d[k]);
      ParamNameValid(k, d[k]);
      PairsCaptures(name, d[k]);
      AllPairsCaptures(d, order[1..]);
      CapturesOfAppend(Pairs(name, d[k]), AllPairs(d, order[1..]));
    }
  }

  lemma {:induction false} ValuesForAppend(a: seq<Capture>, b: seq<Capture>, k: string)
    ensures ValuesFor(a + b, k) == ValuesFor(a, k) + ValuesFor(b, k)
    decreases |a|
  {
    if a == [] {
      assert a + b == b;
    } else {
      assert (a + b)[0] == a[0];
      assert (a + b)[1..] == a[1..] + b;
      ValuesForAppend(a[1..], b, k);
    }
  }

  lemma {:induction false} ValuesForParam(name: string, vs: seq<string>, k: string)
    ensures ValuesFor(ParamCaps(name, vs), k) == if name == k then vs else []
    decreases |vs|
  {
    if vs != [] {
      var caps := ParamCaps(name, vs);
      ValuesForParam(name, vs[1..], k);
      assert caps[1..] == ParamCaps(name, vs[1..]);
      if name == k {
        assert vs == [vs[0]] + vs[1..];
      }
    }
  }

  lemma {:induction false} KeysOfParam(name: string, vs: seq<string>)
    ensures KeysOf(ParamCaps(name, vs)) == if vs == [] then {} else {name}
    decreases |vs|
  {
    if vs != [] {
      var caps := ParamCaps(name, vs);
      KeysOfParam(name, vs[1..]);
      assert caps[1..] == ParamCaps(name, vs[1..]);
      KeysOfFirst(caps);
    }
  }

  /** The parameter names read back are those of the keys in `order`. */
  lemma {:induction false} AllCapsKeys(d: MultiMap, order: seq<string>)
    requires forall i | 0 <= i < |order| :: order[i] in d && d[order[i]] != []
    ensures KeysOf(AllCaps(d, order)) == set i | 0 <= i < |order| :: ParamName(order[i], d[order[i]])
    decreases |order|
  {
    if order != [] {
      var h := order[0];
      var name := ParamName(h, d[h]);
      var rest := order[1..];
      AllCapsKeys(d, rest);
      KeysOfParam(name, d[h]);
      KeysOfAppend(ParamCaps(name, d[h]), AllCaps(d, rest));
      assert d[h] != [] ==> KeysOf(ParamCaps(name, d[h])) == {name};
      NamesCons(d, order);
    }
  }

  lemma KeysOfAppend(a: seq<Capture>, b: seq<Capture>)
    ensures KeysOf(a + b) == KeysOf(a) + KeysOf(b)
  {
    assert forall c :: c in a + b <==> c in a || c in b;
  }

  lemma NamesCons(d: MultiMap, order: seq<string>)
    requires forall i | 0 <= i < |order| :: order[i] in d
    requires order != []
    ensures (set i | 0 <= i < |order| :: ParamName(order[i], d[order[i]]))
         == {ParamName(order[0], d[order[0]])}
            + (set i | 0 <= i < |order[1..]| :: ParamName(order[1..][i], d[order[1..][i]]))
  {
    var rest := order[1..];
    forall i | 0 <= i < |order|
      ensures ParamName(order[i], d[order[i]])
           in {ParamName(order[0], d[order[0]])} + (set i | 0 <= i < |rest| :: ParamName(rest[i], d[rest[i]]))
    {
      if i > 0 {
        assert order[i] == rest[i - 1];
      }
    }
    forall i | 0 <= i < |rest|
      ensures ParamName(rest[i], d[rest[i]]) in (set i | 0 <= i < |order| :: ParamName(order[i], d[order[i]]))
    {
      assert rest[i] == order[i + 1];
    }
  }

  /** Along a repetition-free order, the parameter name of a listed key reads back
      exactly that key's values. */
  lemma {:induction false} AllCapsValues(d: MultiMap, order: seq<string>, k: string)
    requires forall i | 0 <= i < |order| :: order[i] in d
    requires forall i, j | 0 <= i < j < |order| :: order[i] != order[j]
    requires Reproducible(d) && k in order
    ensures ValuesFor(AllCaps(d, order), ParamName(k, d[k])) == d[k]
    decreases |order|
  {
    var h := order[0];
    var name := ParamName(h, d[h]);
    var rest := order[1..];
    var target := ParamName(k, d[k]);
    ValuesForAppend(ParamCaps(name, d[h]), AllCaps(d, rest), target);
    ValuesForParam(name, d[h], target);
    if k == h {
      assert k !in rest;
      NotInRest(d, rest, k);
    } else {
      ParamNameInjective(h, d[h], k, d[k]);
      assert k in rest by {
        var j :| 0 <= j < |order| && order[j] == k;
        assert rest[j - 1] == k;
      }
      assert forall i, j | 0 <= i < j < |rest| :: rest[i] != rest[j] by {
        forall i, j | 0 <= i < j < |rest| ensures rest[i] != rest[j] {
          assert rest[i] == order[i + 1] && rest[j] == order[j + 1];
        }
      }
      AllCapsValues(d, rest, k);
    }
  }

  /** A key missing from the rest of the order reads nothing back from it. */
  lemma {:induction false} NotInRest(d: MultiMap, rest: seq<string>, k: string)
    requires forall i | 0 <= i < |rest| :: rest[i] in d
    requires k in d && k !in rest
    requires Reproducible(d)
    ensures ValuesFor(AllCaps(d, rest), ParamName(k, d[k])) == []
    decreases |rest|
  {
    if rest != [] {
      var h := rest[0];
      assert h != k;
      NotInRest(d, rest[1..], k);
      ValuesForAppend(ParamCaps(ParamName(h, d[h]), d[h]), AllCaps(d, rest[1..]), ParamName(k, d[k]));
      ParamNameInjective(h, d[h], k, d[k]);
      ValuesForParam(ParamName(h, d[h]), d[h], ParamName(k, d[k]));
    }
  }

  /** The text holds an `=`, so it is not blank. */
  lemma {:induction false} FormattedNotBlank(d: MultiMap, order: seq<string>)
    requires forall i | 0 <= i < |order| :: order[i] in d
    requires order != [] && Reproducible(d)
    ensures !AllWhitespace(Join(AllPairs(d, order), "&"))
  {
    var k := order[0];
    var name := ParamName(k, d[k]);
    var first := name + "=" + d[k][0];
    var ps := AllPairs(d, order);
    assert ps[0] == first;
    JoinStartsWith(ps, "&");
    ParamNameValid(k, d[k]);
    var s := Join(ps, "&");
    assert s[|name|] == first[|name|] == '=';
  }

  lemma {:induction false} JoinStartsWith(parts: seq<string>, sep: string)
    requires |parts| >= 1
    ensures parts[0] <= Join(parts, sep)
  {
    if |parts| > 1 {
      assert Join(parts, sep) == parts[0] + (sep + Join(parts[1..], sep));
    }
  }

  /** The query text of non-empty, reproducible data reads back as the captures of every
      key's values under its parameter name. */
  lemma FormatCaptures(d: MultiMap, order: seq<string>)
    requires forall i | 0 <= i < |order| :: order[i] in d
    requires order != [] && Reproducible(d)
    ensures !AllWhitespace(FormatQuery(d, order))
    ensures Captures(FormatQuery(d, order)) == AllCaps(d, order)
  {
    FormatIsPairs(d, order);
    FormattedNotBlank(d, order);
    AllPairsCaptures(d, order);
    SplitAmpersandJoin(AllPairs(d, order));
  }

  /** Round trip: `from_str` of `to_string` holds, under each key's parameter name, exactly
      that key's values in order, and no other key. */
  lemma FormatRoundTrip(d: MultiMap, order: seq<string>)
    requires IsEnumeration(order, d.Keys)
    requires Reproducible(d)
    ensures ParseQuery(FormatQuery(d, order)).data.Keys == set k | k in d :: ParamName(k, d[k])
    ensures forall k | k in d :: ParseQuery(FormatQuery(d, order)).Get(ParamName(k, d[k])) == Some(d[k])
  {
    EnumerationCovers(order, d.Keys);
    if order == [] {
      EmptyRoundTrip(d, order);
    } else {
      var s := FormatQuery(d, order);
      FormatCaptures(d, order);
      AllCapsKeys(d, order);
      ParsedParameters(s, "");
      RoundTripKeys(d, order);
      forall k | k in d
        ensures ParseQuery(s).Get(ParamName(k, d[k])) == Some(d[k])
      {
        RoundTripValue(d, order, k);
      }
    }
  }

  lemma EmptyRoundTrip(d: MultiMap, order: seq<string>)
    requires IsEnumeration(order, d.Keys) && order == []
    ensures ParseQuery(FormatQuery(d, order)).data == map[]
    ensures d == map[]
  {
    assert FormatQuery(d, order) == "";
    assert AllWhitespace("");
    BlankQuery("");
    assert d.Keys == {} by {
      assert |d.Keys| == 0;
    }
  }

  lemma RoundTripValue(d: MultiMap, order: seq<string>, k: string)
    requires IsEnumeration(order, d.Keys)
    requires Reproducible(d) && k in order && k in d
    ensures ParseQuery(FormatQuery(d, order)).Get(ParamName(k, d[k])) == Some(d[k])
  {
    var s := FormatQuery(d, order);
    FormatCaptures(d, order);
    AllCapsValues(d, order, k);
    ParsedParameters(s, ParamName(k, d[k]));
    AllCapsKeys(d, order);
    var i :| 0 <= i < |order| && order[i] == k;
    assert ParamName(k, d[k]) in ParseQuery(s).data;
  }

  lemma RoundTripKeys(d: MultiMap, order: seq<string>)
    requires IsEnumeration(order, d.Keys)
    requires forall k | k in d :: k in order
    ensures (set i | 0 <= i < |order| :: ParamName(order[i], d[order[i]]))
         == set k | k in d :: ParamName(k, d[k])
  {
  }

  /** Splitting `&`-free pieces joined by `&` gives the pieces back. */
  lemma SplitAmpersandJoin(ps: seq<string>)
    requires |ps| >= 1
    requires NoAmpersand(ps)
    ensures Split(Join(ps, "&"), "&") == ps
  {
    forall k | 0 <= k < |ps| - 1 ensures NoEarlyMatch(ps[k], "&") {
      NoEarlyMatchChar(ps[k], '&');
    }
    ContainsChar(ps[|ps| - 1], '&');
    SplitJoinInverse(ps, "&");
  }

  // ---------------------------------------------------------------------------
  // The pattern as the program writes it

  /** The pattern `from_str` compiles, character for character. */
  const PatternAsWritten: string := "([^=&]+)([^&]*))?"

  /** The pattern the capture grammar above describes: group 3 is the value. */
  const PatternIntended: string := "([^=&]+)(=([^&]*))?"

  /** Whether the groups of `p[i..]` nest properly, starting `depth` groups deep: every
      `)` closes an open `(`, and none is left open at the end; bracket expressions
      `[...]` are skipped. */
  function GroupsBalanced(p: string, i: nat, depth: nat, inClass: bool): bool
    requires i <= |p|
    decreases |p| - i
  {
    if i == |p| then depth == 0 && !inClass
    else if inClass then GroupsBalanced(p, i + 1, depth, p[i] != ']')
    else if p[i] == '[' then GroupsBalanced(p, i + 1, depth, true)
    else if p[i] == '(' then GroupsBalanced(p, i + 1, depth + 1, false)
    else if p[i] == ')' then depth > 0 && GroupsBalanced(p, i + 1, depth - 1, false)
    else GroupsBalanced(p, i + 1, depth, false)
  }

  /** `seen` plus the number of capture groups `p[i..]` opens outside bracket expressions. */
  function GroupCount(p: string, i: nat, inClass: bool, seen: nat): nat
    requires i <= |p|
    decreases |p| - i
  {
    if i == |p| then seen
    else if inClass then GroupCount(p, i + 1, p[i] != ']', seen)
    else if p[i] == '[' then GroupCount(p, i + 1, true, seen)
    else GroupCount(p, i + 1, false, if p[i] == '(' then seen + 1 else seen)
  }

  /** Why compiling a pattern fails. */
  datatype PatternError = UnopenedGroup

  /** `Query::from_str(s)` as written: a blank string gives an empty query, and any other
      string reaches `Regex::new(...).unwrap()` on the written pattern, which panics when the
      pattern does not compile. */
  function FromStrAsWritten(s: string): (r: Result<Query, PatternError>)
    ensures r.Ok? ==> r.value.queryString.None?
  {
    if Trim(s) == [] then Ok(New())
    else if !GroupsBalanced(PatternAsWritten, 0, 0, false) then Err(UnopenedGroup)
    else Ok(ParseQuery(s))
  }

  /** The written pattern closes a group it never opened, at its second-to-last
      character. */
  lemma PatternAsWrittenUnbalanced()
    ensures !GroupsBalanced(PatternAsWritten, 0, 0, false)
  {
    assert GroupsBalanced(PatternAsWritten, 0, 0, false) == GroupsBalanced(PatternAsWritten, 1, 1, false);
    assert GroupsBalanced(PatternAsWritten, 1, 1, false) == GroupsBalanced(PatternAsWritten, 2, 1, true);
    assert GroupsBalanced(PatternAsWritten, 2, 1, true) == GroupsBalanced(PatternAsWritten, 3, 1, true);
    assert GroupsBalanced(PatternAsWritten, 3, 1, true) == GroupsBalanced(PatternAsWritten, 4, 1, true);
    assert GroupsBalanced(PatternAsWritten, 4, 1, true) == GroupsBalanced(PatternAsWritten, 5, 1, true);
    assert GroupsBalanced(PatternAsWritten, 5, 1, true) == GroupsBalanced(PatternAsWritten, 6, 1, false);
    assert GroupsBalanced(PatternAsWritten, 6, 1, false) == GroupsBalanced(PatternAsWritten, 7, 1, false);
    assert GroupsBalanced(PatternAsWritten, 7, 1, false) == GroupsBalanced(PatternAsWritten, 8, 0, false);
    assert GroupsBalanced(PatternAsWritten, 8, 0, false) == GroupsBalanced(PatternAsWritten, 9, 1, false);
    assert GroupsBalanced(PatternAsWritten, 9, 1, false) == GroupsBalanced(PatternAsWritten, 10, 1, true);
    assert GroupsBalanced(PatternAsWritten, 10, 1, true) == GroupsBalanced(PatternAsWritten, 11, 1, true);
    assert GroupsBalanced(PatternAsWritten, 11, 1, true) == GroupsBalanced(PatternAsWritten, 12, 1, true);
    assert GroupsBalanced(PatternAsWritten, 12, 1, true) == GroupsBalanced(PatternAsWritten, 13, 1, false);
    assert GroupsBalanced(PatternAsWritten, 13, 1, false) == GroupsBalanced(PatternAsWritten, 14, 1, false);
    assert GroupsBalanced(PatternAsWritten, 14, 1, false) == GroupsBalanced(PatternAsWritten, 15, 0, false);
    assert !GroupsBalanced(PatternAsWritten, 15, 0, false);
  }

  /** The intended pattern is well formed. */
  lemma PatternIntendedBalanced()
    ensures GroupsBalanced(PatternIntended, 0, 0, false)
  {
    BalancedFrom0();
    BalancedFrom10();
  }

  lemma BalancedFrom0()
    ensures GroupsBalanced(PatternIntended, 0, 0, false) == GroupsBalanced(PatternIntended, 10, 1, false)
  {
    assert GroupsBalanced(PatternIntended, 0, 0, false) == GroupsBalanced(PatternIntended, 1, 1, false);
    assert GroupsBalanced(PatternIntended, 1, 1, false) == GroupsBalanced(PatternIntended, 2, 1, true);
    assert GroupsBalanced(PatternIntended, 2, 1, true) == GroupsBalanced(PatternIntended, 3, 1, true);
    assert GroupsBalanced(PatternIntended, 3, 1, true) == GroupsBalanced(PatternIntended, 4, 1, true);
    assert GroupsBalanced(PatternIntended, 4, 1, true) == GroupsBalanced(PatternIntended, 5, 1, true);
    assert GroupsBalanced(PatternIntended, 5, 1, true) == GroupsBalanced(PatternIntended, 6, 1, false);
    assert GroupsBalanced(PatternIntended, 6, 1, false) == GroupsBalanced(PatternIntended, 7, 1, false);
    assert GroupsBalanced(PatternIntended, 7, 1, false) == GroupsBalanced(PatternIntended, 8, 0, false);
    assert GroupsBalanced(PatternIntended, 8, 0, false) == GroupsBalanced(PatternIntended, 9, 1, false);
    assert GroupsBalanced(PatternIntended, 9, 1, false) == GroupsBalanced(PatternIntended, 10, 1, false);
  }

  lemma BalancedFrom10()
    ensures GroupsBalanced(PatternIntended, 10, 1, false)
  {
    assert GroupsBalanced(PatternIntended, 10, 1, false) == GroupsBalanced(PatternIntended, 11, 2, false);
    assert GroupsBalanced(PatternIntended, 11, 2, false) == GroupsBalanced(PatternIntended, 12, 2, true);
    assert GroupsBalanced(PatternIntended, 12, 2, true) == GroupsBalanced(PatternIntended, 13, 2, true);
    assert GroupsBalanced(PatternIntended, 13, 2, true) == GroupsBalanced(PatternIntended, 14, 2, true);
    assert GroupsBalanced(PatternIntended, 14, 2, true) == GroupsBalanced(PatternIntended, 15, 2, false);
    assert GroupsBalanced(PatternIntended, 15, 2, false) == GroupsBalanced(PatternIntended, 16, 2, false);
    assert GroupsBalanced(PatternIntended, 16, 2, false) == GroupsBalanced(PatternIntended, 17, 1, false);
    assert GroupsBalanced(PatternIntended, 17, 1, false) == GroupsBalanced(PatternIntended, 18, 0, false);
    assert GroupsBalanced(PatternIntended, 18, 0, false) == GroupsBalanced(PatternIntended, 19, 0, false);
    assert GroupsBalanced(PatternIntended, 19, 0, false);
  }

  /** The intended pattern has the three groups the program reads. */
  lemma PatternIntendedGroups()
    ensures GroupCount(PatternIntended, 0, false, 0) == 3
  {
    GroupsFrom0();
    GroupsFrom10();
  }

  lemma GroupsFrom0()
    ensures GroupCount(PatternIntended, 0, false, 0) == GroupCount(PatternIntended, 10, false, 2)
  {
    assert GroupCount(PatternIntended, 0, false, 0) == GroupCount(PatternIntended, 1, false, 1);
    assert GroupCount(PatternIntended, 1, false, 1) == GroupCount(PatternIntended, 2, true, 1);
    assert GroupCount(PatternIntended, 2, true, 1) == GroupCount(PatternIntended, 3, true, 1);
    assert GroupCount(PatternIntended, 3, true, 1) == GroupCount(PatternIntended, 4, true, 1);
    assert GroupCount(PatternIntended, 4, true, 1) == GroupCount(PatternIntended, 5, true, 1);
    assert GroupCount(PatternIntended, 5, true, 1) == GroupCount(PatternIntended, 6, false, 1);
    assert GroupCount(PatternIntended, 6, false, 1) == GroupCount(PatternIntended, 7, false, 1);
    assert GroupCount(PatternIntended, 7, false, 1) == GroupCount(PatternIntended, 8, false, 1);
    assert GroupCount(PatternIntended, 8, false, 1) == GroupCount(PatternIntended, 9, false, 2);
    assert GroupCount(PatternIntended, 9, false, 2) == GroupCount(PatternIntended, 10, false, 2);
  }

  lemma GroupsFrom10()
    ensures GroupCount(PatternIntended, 10, false, 2) == 3
  {
    assert GroupCount(PatternIntended, 10, false, 2) == GroupCount(PatternIntended, 11, false, 3);
    assert GroupCount(PatternIntended, 11, false, 3) == GroupCount(PatternIntended, 12, true, 3);
    assert GroupCount(PatternIntended, 12, true, 3) == GroupCount(PatternIntended, 13, true, 3);
    assert GroupCount(PatternIntended, 13, true, 3) == GroupCount(PatternIntended, 14, true, 3);
    assert GroupCount(PatternIntended, 14, true, 3) == GroupCount(PatternIntended, 15, false, 3);
    assert GroupCount(PatternIntended, 15, false, 3) == GroupCount(PatternIntended, 16, false, 3);
    assert GroupCount(PatternIntended, 16, false, 3) == GroupCount(PatternIntended, 17, false, 3);
    assert GroupCount(PatternIntended, 17, false, 3) == GroupCount(PatternIntended, 18, false, 3);
    assert GroupCount(PatternIntended, 18, false, 3) == GroupCount(PatternIntended, 19, false, 3);
    assert GroupCount(PatternIntended, 19, false, 3) == 3;
  }

  /** As written, every non-blank query string, such as `a=1`, makes `from_str` panic. */
  lemma AsWrittenRejectsEveryQuery(s: string)
    requires !AllWhitespace(s)
    ensures FromStrAsWritten(s).Err?
  {
    TrimBlank(s);
    PatternAsWrittenUnbalanced();
  }

  /** The intended grammar reads a lone `key=value`, such as `a=1`, as one key with one
      value. */
  lemma IntendedReadsPair(key: string, value: string)
    requires ValidKey(key) && '&' !in value
    ensures ParseQuery(key + "=" + value).data == map[key := [value]]
  {
    var q := key + "=" + value;
    assert !AllWhitespace(q) by {
      assert q[|key|] == '=';
      assert !IsWhitespace(q[|key|]);
    }
    TrimBlank(q);
    SinglePairCaptures(key, value);
    var caps := [Capture(key, value)];
    assert caps[1..] == [];
    var m := Appended(map[], key, [value]);
    assert CollectInto(map[], caps) == CollectInto(m, []);
    assert m.Keys == {key} && m[key] == [value];
    assert m == map[key := [value]];
  }

  /** A lone `key=value` is captured as exactly that pair. */
  lemma SinglePairCaptures(key: string, value: string)
    requires ValidKey(key) && '&' !in value
    ensures Captures(key + "=" + value) == [Capture(key, value)]
  {
    var q := key + "=" + value;
    KeyWithValue(key, value);
    SplitAmpersandJoin([q]);
    assert CapturesOf([q]) == [Capture(key, value)] + CapturesOf([]);
  }
}
