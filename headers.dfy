/** `Headers` (src/headers.rs): a multimap from a header name to its values in insertion
    order, with line parsing, append-insert, lookup and wire formatting. */
module HeaderFields {
  import opened Wrappers
  import opened Text
  import opened MultiMaps

  // ---------------------------------------------------------------------------
  // Specification functions

  /** The map after `parse(line)`: the line is split on `": "`, the trimmed first piece
      names the header, and the trimmed `,`-separated pieces of the second piece are
      appended to its list in order. Further pieces are ignored. */
  function ParsedInto(m: MultiMap, line: string): (r: MultiMap)
    requires |Split(line, ": ")| >= 2
  {
    var parts := Split(line, ": ");
    Appended(m, Trim(parts[0]), TrimAll(Split(parts[1], ",")))
  }

  /** One header as `to_string` writes it: `name: v1, v2, ...` and CRLF. */
  function Line(name: string, vs: seq<string>): string
  {
    name + ": " + Join(vs, ", ") + "\r\n"
  }

  /** The text `to_string` builds when the map is visited in `order`: one line per name,
      stopping before the first name whose list is empty. */
  function Format(m: MultiMap, order: seq<string>): string
    requires forall i | 0 <= i < |order| :: order[i] in m
    decreases |order|
  {
    if order == [] then ""
    else if m[order[0]] == [] then ""
    else Line(order[0], m[order[0]]) + Format(m, order[1..])
  }

  /** The line of each name in `order`. */
  function FormatLines(m: MultiMap, order: seq<string>): (lines: seq<string>)
    requires forall i | 0 <= i < |order| :: order[i] in m
    ensures |lines| == |order|
    decreases |order|
  {
    if order == [] then [] else [Line(order[0], m[order[0]])] + FormatLines(m, order[1..])
  }

  function Concat(parts: seq<string>): string
    decreases |parts|
  {
    if parts == [] then "" else parts[0] + Concat(parts[1..])
  }

  /** Every line has the `": "` that `parse` needs. */
  predicate AllSplit(lines: seq<string>)
    decreases |lines|
  {
    lines == [] || (|Split(lines[0], ": ")| >= 2 && AllSplit(lines[1..]))
  }

  /** `parse` applied to each line in turn. */
  function ParseAll(m: MultiMap, lines: seq<string>): MultiMap
    requires AllSplit(lines)
    decreases |lines|
  {
    if lines == [] then m else ParseAll(ParsedInto(m, lines[0]), lines[1..])
  }

  /** A name `parse` reads back unchanged from its own line. */
  predicate ValidName(n: string)
  {
    IsTrimmed(n) && !Contains(n, ": ")
  }

  /** A value `parse` reads back unchanged from a line. */
  predicate ValidValue(v: string)
  {
    IsTrimmed(v) && ',' !in v && !Contains(v, ": ")
  }

  /** Every name and value survives a format-then-parse round trip, and no list is empty. */
  predicate Reparseable(d: MultiMap)
  {
    forall k | k in d :: ValidName(k) && d[k] != [] && forall i | 0 <= i < |d[k]| :: ValidValue(d[k][i])
  }

  // ---------------------------------------------------------------------------
  // The object

  class Headers {
    var data: MultiMap

    /** `Headers::new()`: no names. */
    constructor ()
      ensures data == map[]
    {
      data := map[];
    }

    /** `Headers::with_data(d)`: exactly `d`. */
    constructor WithData(d: MultiMap)
      ensures data == d
    {
      data := d;
    }

    /** `parse(header)`. Indexing the second piece panics when `header` has no `": "`. */
    method Parse(header: string)
      requires |Split(header, ": ")| >= 2
      modifies this
      ensures data == ParsedInto(old(data), header)
    {
      var parts := Split(header, ": ");
      var name := Trim(parts[0]);
      var values := Split(parts[1], ",");
      var i := 0;
      while i < |values|
        invariant 0 <= i <= |values|
        invariant data == if i == 0 then old(data) else Appended(old(data), name, TrimAll(values[..i]))
      {
        ParseStep(old(data), name, values, i);
        data := Appended(data, name, [Trim(values[i])]);
        i := i + 1;
      }
      assert values[..i] == values;
    }

    /** `insert(name, value)`: `value` goes to the end of `name`'s list, which is created
        when absent; every other name keeps its list. */
    method Insert(name: string, value: string)
      modifies this
      ensures data == Appended(old(data), name, [value])
    {
      data := Appended(data, name, [value]);
    }

    /** `find(key)`: nothing for an absent name or an empty list, else the list in order. */
    function Find(key: string): (r: Option<seq<string>>)
      reads this
      ensures r.None? <==> key !in data || data[key] == []
      ensures r.Some? ==> key in data && r.value == data[key]
    {
      if key in data && data[key] != [] then Some(data[key]) else None
    }

    /** `has(key)`: the name is present, even with an empty list. */
    function Has(key: string): (b: bool)
      reads this
      ensures Find(key).Some? ==> b
      ensures b && Find(key).None? ==> key in data && data[key] == []
      ensures !b ==> Find(key).None?
      ensures key in data && data[key] == [] ==> b
    {
      key in data
    }

    /** `all()` when the map is visited in `order`: each name once, with its whole list. */
    function All(order: seq<string>): (r: seq<(string, seq<string>)>)
      reads this
      requires IsEnumeration(order, data.Keys)
      ensures |r| == |data|
      ensures forall i | 0 <= i < |r| :: r[i].0 in data && r[i].1 == data[r[i].0]
      ensures forall i, j | 0 <= i < j < |r| :: r[i].0 != r[j].0
      ensures forall k | k in data :: exists i | 0 <= i < |r| :: r[i].0 == k
    {
      EnumerationCovers(order, data.Keys);
      var r := seq(|order|, i requires 0 <= i < |order| && order[i] in data reads this => (order[i], data[order[i]]));
      assert forall k | k in data :: exists i | 0 <= i < |r| :: r[i].0 == k by {
        forall k | k in data ensures exists i | 0 <= i < |r| :: r[i].0 == k {
          var i :| 0 <= i < |order| && order[i] == k;
          assert r[i].0 == k;
        }
      }
      r
    }

    /** `to_string()` when the map is visited in `order`. */
    method ToString(order: seq<string>) returns (s: string)
      requires IsEnumeration(order, data.Keys)
      ensures s == Format(data, order)
    {
      s := "";
      var i := 0;
      while i < |order|
        invariant 0 <= i <= |order|
        invariant s + Format(data, order[i..]) == Format(data, order)
      {
        var key := order[i];
        var vs := data[key];
        FormatFrom(data, order, i);
        if vs == [] {
          return;
        }
        var line := WriteLine(key, vs);
        s := s + line;
        i := i + 1;
      }
    }
  }

  /** The line `to_string` writes for one name: the first value after `": "`, each further
      value after `", "`, then CRLF. */
  method WriteLine(key: string, vs: seq<string>) returns (line: string)
    requires vs != []
    ensures line == Line(key, vs)
  {
    line := key + ": " + vs[0];
    var j := 1;
    assert vs[..1] == [vs[0]];
    while j < |vs|
      invariant 1 <= j <= |vs|
      invariant line == key + ": " + Join(vs[..j], ", ")
    {
      assert vs[..j + 1] == vs[..j] + [vs[j]];
      JoinSnoc(vs[..j], vs[j], ", ");
      line := line + ", " + vs[j];
      j := j + 1;
    }
    assert vs[..j] == vs;
    line := line + "\r\n";
  }

  // ---------------------------------------------------------------------------
  // Properties of `to_string`

  /** `Format` from position `i` of the visiting order on. */
  lemma FormatFrom(m: MultiMap, order: seq<string>, i: nat)
    requires forall j | 0 <= j < |order| :: order[j] in m
    requires i < |order|
    ensures Format(m, order[i..])
         == if m[order[i]] == [] then "" else Line(order[i], m[order[i]]) + Format(m, order[i + 1..])
  {
    assert order[i..][0] == order[i] && order[i..][1..] == order[i + 1..];
  }

  /** With no empty list, the text is the lines of all names, in visiting order. */
  lemma {:induction false} FormatIsLines(m: MultiMap, order: seq<string>)
    requires forall i | 0 <= i < |order| :: order[i] in m && m[order[i]] != []
    ensures Format(m, order) == Concat(FormatLines(m, order))
    decreases |order|
  {
    if order != [] {
      FormatIsLines(m, order[1..]);
    }
  }

  /** At the first empty list the text stops: nothing after that name is written. */
  lemma {:induction false} FormatStopsAtEmpty(m: MultiMap, order: seq<string>, i: nat)
    requires forall j | 0 <= j < |order| :: order[j] in m
    requires i < |order| && m[order[i]] == []
    ensures Format(m, order) == Format(m, order[..i])
    decreases i
  {
    if i > 0 {
      FormatStopsAtEmpty(m, order[1..], i - 1);
      assert order[1..][..i - 1] == order[..i][1..];
    }
  }

  // ---------------------------------------------------------------------------
  // Round trip: `parse` reads back each line of `to_string`

  /** Whitespace never contains a comma. */
  lemma WhitespaceHasNoComma(s: string)
    requires AllWhitespace(s)
    ensures ',' !in s
  {
    assert !IsWhitespace(',');
  }

  /** One more value of the list goes to the end of what the earlier ones built. */
  lemma ParseStep(m: MultiMap, name: string, values: seq<string>, i: nat)
    requires i < |values|
    ensures var before := if i == 0 then m else Appended(m, name, TrimAll(values[..i]));
            Appended(before, name, [Trim(values[i])]) == Appended(m, name, TrimAll(values[..i + 1]))
  {
    TrimAllPrefix(values, i);
    if i == 0 {
      assert TrimAll(values[..i]) == [];
      assert TrimAll(values[..i + 1]) == [Trim(values[i])];
    } else {
      AppendedTwice(m, name, TrimAll(values[..i]), [Trim(values[i])]);
    }
  }

  lemma TrimAllPrefix(parts: seq<string>, i: nat)
    requires i < |parts|
    ensures TrimAll(parts[..i + 1]) == TrimAll(parts[..i]) + [Trim(parts[i])]
  {
    assert |TrimAll(parts[..i + 1])| == i + 1;
  }

  lemma TrimAllCons(a: string, xs: seq<string>)
    ensures TrimAll([a] + xs) == [Trim(a)] + TrimAll(xs)
  {
    var l := [a] + xs;
    assert |TrimAll(l)| == |[Trim(a)] + TrimAll(xs)|;
    forall k | 0 <= k < |l| ensures TrimAll(l)[k] == ([Trim(a)] + TrimAll(xs))[k] {
      if k > 0 {
        assert l[k] == xs[k - 1];
        assert TrimAll(l)[k] == Trim(xs[k - 1]);
      }
    }
  }

  /** The trimmed `,`-pieces of `pre + Join(vs, ", ") + post` are exactly `vs`, for padding
      made of whitespace and trimmed values without commas. */
  lemma {:induction false} ValuesRoundTrip(pre: string, vs: seq<string>, post: string)
    requires AllWhitespace(pre) && AllWhitespace(post) && |vs| >= 1
    requires forall i | 0 <= i < |vs| :: IsTrimmed(vs[i]) && ',' !in vs[i]
    ensures TrimAll(Split(pre + Join(vs, ", ") + post, ",")) == vs
    decreases |vs|
  {
    WhitespaceHasNoComma(pre);
    WhitespaceHasNoComma(post);
    if |vs| == 1 {
      var s := pre + vs[0] + post;
      assert ',' !in s;
      ContainsChar(s, ',');
      SplitWithout(s, ",");
      TrimPadded(pre, vs[0], post);
    } else {
      var v := vs[0];
      var rest := vs[1..];
      assert vs == [v] + rest;
      JoinCons(v, rest, ", ");
      var a := pre + v;
      var b := " " + Join(rest, ", ") + post;
      assert pre + Join(vs, ", ") + post == a + "," + b;
      assert ',' !in a;
      NoEarlyMatchChar(a, ',');
      SplitCons(a, ",", b);
      assert AllWhitespace(" ");
      ValuesRoundTrip(" ", rest, post);
      assert AllWhitespace("");
      TrimPadded(pre, v, "");
      assert pre + v + "" == a;
      TrimAllCons(a, Split(b, ","));
    }
  }

  /** A two-character string other than `": "` does not contain `": "`. */
  lemma ShortFree(s: string)
    requires |s| == 2 && s != ": "
    ensures !Contains(s, ": ")
  {
    forall i | 0 <= i <= 2 ensures !OccursAt(s, ": ", i) {
      if i == 0 {
        assert s[0..2] == s;
      }
    }
  }

  /** `": "` in `a + b` lies in `a`, in `b`, or across the seam. */
  lemma NoColonSpaceConcat(a: string, b: string)
    requires !Contains(a, ": ") && !Contains(b, ": ")
    requires a == [] || b == [] || a[|a| - 1] != ':' || b[0] != ' '
    ensures !Contains(a + b, ": ")
  {
    var s := a + b;
    forall j | 0 <= j <= |s| ensures !OccursAt(s, ": ", j) {
      if j + 2 <= |a| {
        assert s[j..j + 2] == a[j..j + 2];
        assert !OccursAt(a, ": ", j);
      } else if j >= |a| && j + 2 <= |s| {
        assert s[j..j + 2] == b[j - |a|..j - |a| + 2];
        assert !OccursAt(b, ": ", j - |a|);
      } else if j + 2 <= |s| {
        assert s[j] == a[|a| - 1] && s[j + 1] == b[0];
      }
    }
  }

  /** The values part of a line never contains `": "` when no value does. */
  lemma {:induction false} JoinedValuesFree(vs: seq<string>)
    requires |vs| >= 1
    requires forall i | 0 <= i < |vs| :: !Contains(vs[i], ": ")
    ensures !Contains(Join(vs, ", ") + "\r\n", ": ")
    decreases |vs|
  {
    ShortFree("\r\n");
    if |vs| == 1 {
      NoColonSpaceConcat(vs[0], "\r\n");
    } else {
      assert vs == [vs[0]] + vs[1..];
      JoinCons(vs[0], vs[1..], ", ");
      JoinedValuesFree(vs[1..]);
      var t := Join(vs[1..], ", ") + "\r\n";
      ShortFree(", ");
      NoColonSpaceConcat(", ", t);
      NoColonSpaceConcat(vs[0], ", " + t);
      assert Join(vs, ", ") + "\r\n" == vs[0] + (", " + t);
    }
  }

  /** A name and a rest, neither containing `": "`, split back apart. */
  lemma SplitNameRest(name: string, rest: string)
    requires !Contains(name, ": ") && !Contains(rest, ": ")
    ensures Split(name + ": " + rest, ": ") == [name, rest]
  {
    NoEarlyMatchColonSpace(name);
    SplitCons(name, ": ", rest);
    SplitWithout(rest, ": ");
    assert [name] + [rest] == [name, rest];
  }

  /** The line `to_string` writes for one name splits on `": "` into the name and the values. */
  lemma LineSplit(name: string, vs: seq<string>)
    requires ValidName(name) && |vs| >= 1
    requires forall i | 0 <= i < |vs| :: !Contains(vs[i], ": ")
    ensures Split(Line(name, vs), ": ") == [name, Join(vs, ", ") + "\r\n"]
  {
    var rest := Join(vs, ", ") + "\r\n";
    LineParts(name, vs);
    JoinedValuesFree(vs);
    SplitNameRest(name, rest);
  }

  /** A line is the name, `": "`, and the values part. */
  lemma LineParts(name: string, vs: seq<string>)
    ensures Line(name, vs) == name + ": " + (Join(vs, ", ") + "\r\n")
  {
  }

  /** The values part of a line splits back into the values. */
  lemma ValuesPartRoundTrip(vs: seq<string>)
    requires |vs| >= 1
    requires forall i | 0 <= i < |vs| :: IsTrimmed(vs[i]) && ',' !in vs[i]
    ensures TrimAll(Split(Join(vs, ", ") + "\r\n", ",")) == vs
  {
    CrlfWhitespace();
    ValuesRoundTrip("", vs, "\r\n");
    EmptyFirst(Join(vs, ", "), "\r\n");
  }

  lemma CrlfWhitespace()
    ensures AllWhitespace("") && AllWhitespace("\r\n")
  {
    assert "\r\n"[0] == '\r' && "\r\n"[1] == '\n';
  }

  lemma EmptyFirst(a: string, b: string)
    ensures "" + a + b == a + b
  {
  }

  /** `parse` of the line `to_string` writes for one name adds exactly that name's list. */
  lemma LineRoundTrip(m: MultiMap, name: string, vs: seq<string>)
    requires ValidName(name) && |vs| >= 1
    requires forall i | 0 <= i < |vs| :: ValidValue(vs[i])
    ensures |Split(Line(name, vs), ": ")| >= 2
    ensures ParsedInto(m, Line(name, vs)) == Appended(m, name, vs)
  {
    LineSplit(name, vs);
    var parts := Split(Line(name, vs), ": ");
    assert parts[0] == name && parts[1] == Join(vs, ", ") + "\r\n";
    TrimTrimmed(name);
    ValuesPartRoundTrip(vs);
  }

  /** Every line of reparseable data has the `": "` that `parse` needs. */
  lemma {:induction false} FormatLinesSplit(d: MultiMap, order: seq<string>)
    requires Reparseable(d)
    requires forall i | 0 <= i < |order| :: order[i] in d
    ensures AllSplit(FormatLines(d, order))
    decreases |order|
  {
    if order != [] {
      LineSplit(order[0], d[order[0]]);
      FormatLinesSplit(d, order[1..]);
    }
  }

  /** The part of `d` the names in `order` select. */
  function Restrict(d: MultiMap, order: seq<string>): (r: MultiMap)
    ensures forall k :: k in r <==> k in d && k in order
  {
    map k | k in order && k in d :: d[k]
  }

  /** Adding one more name in front of the rest of the visiting order. */
  lemma AddFirst(m: MultiMap, d: MultiMap, order: seq<string>)
    requires order != [] && order[0] in d
    ensures m[order[0] := d[order[0]]] + Restrict(d, order[1..]) == m + Restrict(d, order)
  {
    assert forall k :: k in order <==> k == order[0] || k in order[1..];
  }

  /** Parsing the first line adds the first name's list. */
  lemma ReparseFirst(m: MultiMap, d: MultiMap, order: seq<string>)
    requires Reparseable(d) && order != []
    requires forall i | 0 <= i < |order| :: order[i] in d
    requires order[0] !in m
    requires AllSplit(FormatLines(d, order))
    ensures AllSplit(FormatLines(d, order[1..]))
    ensures ParseAll(m, FormatLines(d, order))
         == ParseAll(m[order[0] := d[order[0]]], FormatLines(d, order[1..]))
  {
    var k0 := order[0];
    var lines := FormatLines(d, order);
    LineRoundTrip(m, k0, d[k0]);
    assert lines == [Line(k0, d[k0])] + FormatLines(d, order[1..]);
    assert Values(m, k0) + d[k0] == d[k0];
    assert lines[1..] == FormatLines(d, order[1..]);
  }

  /** The names in `order` are names of `d`, each listed once and none of them in `m`. */
  predicate NewNames(m: MultiMap, d: MultiMap, order: seq<string>)
  {
    (forall i | 0 <= i < |order| :: order[i] in d && order[i] !in m)
    && forall i, j | 0 <= i < j < |order| :: order[i] != order[j]
  }

  /** After the first name is added to `m`, the other names are still new. */
  lemma NewNamesTail(m: MultiMap, d: MultiMap, order: seq<string>)
    requires order != [] && NewNames(m, d, order)
    ensures order[0] in d && NewNames(m[order[0] := d[order[0]]], d, order[1..])
  {
    var rest := order[1..];
    assert forall i | 0 <= i < |rest| :: rest[i] == order[i + 1];
  }

  /** Parsing the lines of the names in `order` into `m`, which holds none of them, adds
      each name with its list. */
  lemma {:induction false} ReparseLines(m: MultiMap, d: MultiMap, order: seq<string>)
    requires Reparseable(d) && NewNames(m, d, order)
    requires AllSplit(FormatLines(d, order))
    ensures ParseAll(m, FormatLines(d, order)) == m + Restrict(d, order)
    decreases |order|
  {
    if order == [] {
      assert m + Restrict(d, order) == m;
    } else {
      NewNamesTail(m, d, order);
      ReparseFirst(m, d, order);
      ReparseLines(m[order[0] := d[order[0]]], d, order[1..]);
      AddFirst(m, d, order);
    }
  }

  /** An enumeration of all the keys selects the whole map. */
  lemma RestrictAll(d: MultiMap, order: seq<string>)
    requires IsEnumeration(order, d.Keys)
    ensures map[] + Restrict(d, order) == d
  {
    EnumerationCovers(order, d.Keys);
    assert Restrict(d, order) == d;
  }

  /** Round trip: for reparseable data visited in any order, `to_string` writes one line
      per name, and `parse` of those lines into a fresh map rebuilds every list exactly. */
  lemma FormatRoundTrip(d: MultiMap, order: seq<string>)
    requires IsEnumeration(order, d.Keys) && Reparseable(d)
    ensures Format(d, order) == Concat(FormatLines(d, order))
    ensures AllSplit(FormatLines(d, order))
    ensures ParseAll(map[], FormatLines(d, order)) == d
  {
    FormatIsLines(d, order);
    FormatLinesSplit(d, order);
    EnumerationCovers(order, d.Keys);
    ReparseLines(map[], d, order);
    RestrictAll(d, order);
  }
}
