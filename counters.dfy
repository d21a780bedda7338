/**
 * The counters string of a job-history record, "name:value,name:value,...", and how the
 * statistics parser reads it: the pattern "[[^,]?]+" matched repeatedly picks out the
 * maximal runs of non-comma characters, each run is split on ':' with Java's
 * String.split, and the value of a recognised name is stored under the key the name
 * stands for.
 */
module Counters {
  import opened Wrappers

  // ---------------------------------------------------------------------------
  // Pieces between separators
  // ---------------------------------------------------------------------------

  /** The pieces joined back together with sep between them. */
  function Join(ps: seq<string>, sep: char): string
  {
    if ps == [] then ""
    else if |ps| == 1 then ps[0]
    else ps[0] + [sep] + Join(ps[1..], sep)
  }

  /** Every piece of s between occurrences of sep, empty pieces included. */
  function SplitAll(s: string, sep: char): (r: seq<string>)
    ensures |r| >= 1
    ensures forall p :: p in r ==> sep !in p
  {
    if s == [] then [""]
    else
      var rest := SplitAll(s[1..], sep);
      if s[0] == sep then [""] + rest
      else [[s[0]] + rest[0]] + rest[1..]
  }

  /** Joining the pieces gives back the string. */
  lemma {:induction false} JoinSplitAll(s: string, sep: char)
    ensures Join(SplitAll(s, sep), sep) == s
  {
    if s != [] {
      var rest := SplitAll(s[1..], sep);
      JoinSplitAll(s[1..], sep);
      if s[0] == sep {
        JoinEmptyFirst(rest, sep);
      } else {
        JoinExtendFirst(s[0], rest, sep);
      }
      assert s == [s[0]] + s[1..];
    }
  }

  /** A separator in front of the string adds an empty first piece. */
  lemma JoinEmptyFirst(rest: seq<string>, sep: char)
    requires |rest| >= 1
    ensures Join([""] + rest, sep) == [sep] + Join(rest, sep)
  {
    assert ([""] + rest)[1..] == rest;
  }

  /** Any other character in front of the string lengthens the first piece. */
  lemma JoinExtendFirst(c: char, rest: seq<string>, sep: char)
    requires |rest| >= 1
    ensures Join([[c] + rest[0]] + rest[1..], sep) == [c] + Join(rest, sep)
  {
    var r := [[c] + rest[0]] + rest[1..];
    if |rest| > 1 {
      assert r[1..] == rest[1..];
      calc {
        Join(r, sep);
        r[0] + [sep] + Join(r[1..], sep);
        [c] + (rest[0] + [sep] + Join(rest[1..], sep));
        [c] + Join(rest, sep);
      }
    }
  }

  /** Splitting pieces that hold no separator after joining them gives back the pieces. */
  lemma {:induction false} SplitAllJoin(ps: seq<string>, sep: char)
    requires |ps| >= 1
    requires forall p :: p in ps ==> sep !in p
    ensures SplitAll(Join(ps, sep), sep) == ps
  {
    if |ps| == 1 {
      assert ps[0] in ps && ps[0][..|ps[0]|] == ps[0];
      SplitAllOfRun(ps[0], |ps[0]|, sep);
    } else {
      var s := Join(ps, sep);
      assert s == ps[0] + [sep] + Join(ps[1..], sep);
      var n := |ps[0]|;
      assert s[..n] == ps[0];
      assert s[n+1..] == Join(ps[1..], sep);
      SplitAllOfRun(s, n, sep);
      SplitAllJoin(ps[1..], sep);
      assert ps == [ps[0]] + ps[1..];
    }
  }

  /**
   * A string that starts with a separator-free run of length n, ended by the end of the
   * string or by a separator, has that run as its first piece.
   */
  lemma {:induction false} SplitAllOfRun(s: string, n: nat, sep: char)
    requires n <= |s|
    requires sep !in s[..n]
    requires n == |s| || s[n] == sep
    ensures SplitAll(s, sep) == [s[..n]] + (if n == |s| then [] else SplitAll(s[n+1..], sep))
  {
    if n == 0 {
      if s != [] {
        assert s[1..] == s[n+1..];
      }
    } else {
      assert s[0] != sep by { assert s[0] == s[..n][0]; }
      assert sep !in s[1..][..n-1] by { assert s[1..][..n-1] == s[..n][1..]; }
      SplitAllOfRun(s[1..], n - 1, sep);
      var rest := SplitAll(s[1..], sep);
      var tail := if n == |s| then [] else SplitAll(s[n+1..], sep);
      if n < |s| {
        assert s[1..][n..] == s[n+1..];
      }
      assert rest == [s[1..][..n-1]] + tail;
      assert SplitAll(s, sep) == [[s[0]] + rest[0]] + rest[1..];
      assert [s[0]] + s[1..][..n-1] == s[..n];
    }
  }

  /** The pieces with the empty ones left out. */
  function NonEmpty(ps: seq<string>): (r: seq<string>)
    ensures forall p :: p in r ==> p in ps && p != ""
  {
    if ps == [] then []
    else if ps[0] == "" then NonEmpty(ps[1..])
    else [ps[0]] + NonEmpty(ps[1..])
  }

  lemma {:induction false} NonEmptyOfNonEmpty(ps: seq<string>)
    requires forall p :: p in ps ==> p != ""
    ensures NonEmpty(ps) == ps
  {
    if ps != [] {
      assert ps[0] in ps;
      assert forall p :: p in ps[1..] ==> p in ps;
      NonEmptyOfNonEmpty(ps[1..]);
      assert ps == [ps[0]] + ps[1..];
    }
  }

  // ---------------------------------------------------------------------------
  // The pattern "[[^,]?]+" and String.split(":")
  // ---------------------------------------------------------------------------

  /** The length of the run of non-comma characters at the start of s. */
  function RunLength(s: string): (n: nat)
    ensures n <= |s|
    ensures ',' !in s[..n]
    ensures n == |s| || s[n] == ','
  {
    if s == [] || s[0] == ',' then 0
    else
      var m := RunLength(s[1..]);
      assert s[..m + 1] == [s[0]] + s[1..][..m];
      m + 1
  }

  /**
   * The successive matches of "[[^,]?]+" in s: the character class is every character
   * but a comma, so each match is a maximal non-empty run without commas.
   */
  function Tuples(s: string): (r: seq<string>)
    ensures forall t :: t in r ==> t != "" && ',' !in t
  {
    if s == [] then []
    else if s[0] == ',' then Tuples(s[1..])
    else
      var n := RunLength(s);
      [s[..n]] + Tuples(s[n..])
  }

  /** The matches are exactly the non-empty pieces between commas. */
  lemma {:induction false} TuplesAreNonEmptyPieces(s: string)
    ensures Tuples(s) == NonEmpty(SplitAll(s, ','))
    decreases |s|
  {
    if s == [] {
    } else if s[0] == ',' {
      TuplesAreNonEmptyPieces(s[1..]);
      SplitAllOfRun(s, 0, ',');
      assert s[..0] == "";
    } else {
      var n := RunLength(s);
      SplitAllOfRun(s, n, ',');
      assert s[..n] != "" by { assert s[..n][0] == s[0]; }
      if n < |s| {
        assert s[n..] == [s[n]] + s[n+1..];
        assert Tuples(s[n..]) == Tuples(s[n+1..]);
        TuplesAreNonEmptyPieces(s[n+1..]);
      }
    }
  }

  /** Drops the empty strings at the end, as String.split does. */
  function DropTrailingEmpty(ps: seq<string>): (r: seq<string>)
    ensures |r| <= |ps| && r == ps[..|r|]
    ensures r == [] || r[|r|-1] != ""
    ensures forall i :: |r| <= i < |ps| ==> ps[i] == ""
  {
    if ps != [] && ps[|ps|-1] == "" then DropTrailingEmpty(ps[..|ps|-1]) else ps
  }

  /**
   * Java's s.split(sep) for a one-character pattern: s itself when sep does not occur,
   * otherwise the pieces between separators without the trailing empty ones.
   */
  function JavaSplit(s: string, sep: char): (r: seq<string>)
    ensures sep !in s ==> r == [s]
    ensures sep in s ==> r == [] || r[|r| - 1] != ""
  {
    if sep !in s then [s] else DropTrailingEmpty(SplitAll(s, sep))
  }

  /**
   * The split is empty exactly for a non-empty string made of separators only: then
   * every piece is empty and all of them are dropped.
   */
  lemma JavaSplitOfSeparators(s: string, sep: char)
    ensures JavaSplit(s, sep) == [] <==> s != [] && AllSeparators(s, sep)
  {
    if s != [] && sep in s {
      SplitAllEmpty(s, sep);
      var ps := SplitAll(s, sep);
      var r := DropTrailingEmpty(ps);
      assert JavaSplit(s, sep) == r;
      if r != [] {
        assert r[|r| - 1] == ps[|r| - 1];
        assert !AllEmpty(ps);
      } else {
        assert AllEmpty(ps);
      }
    } else if s != [] {
      assert s[0] in s;
      assert !AllSeparators(s, sep);
    }
  }

  /** A name followed by the separator and nothing else splits into the name alone. */
  lemma JavaSplitDropsEmptyValue(name: string, sep: char)
    requires name != [] && sep !in name
    ensures JavaSplit(name + [sep], sep) == [name]
  {
    var t := name + [sep];
    assert t == Join([name, ""], sep);
    SplitAllJoin([name, ""], sep);
    assert t[|name|] == sep;
  }

  /** Every piece is empty. */
  predicate AllEmpty(ps: seq<string>)
  {
    forall j :: 0 <= j < |ps| ==> ps[j] == ""
  }

  /** The string is made of separators only. */
  predicate AllSeparators(s: string, sep: char)
  {
    forall i :: 0 <= i < |s| ==> s[i] == sep
  }

  /** Every piece is empty exactly when the string is made of separators only. */
  lemma {:induction false} SplitAllEmpty(s: string, sep: char)
    ensures AllEmpty(SplitAll(s, sep)) <==> AllSeparators(s, sep)
  {
    if s != [] {
      SplitAllEmpty(s[1..], sep);
      var rest := SplitAll(s[1..], sep);
      if s[0] == sep {
        assert SplitAll(s, sep) == [""] + rest;
        assert AllEmpty([""] + rest) <==> AllEmpty(rest) by {
          if AllEmpty(rest) {
            forall j | 0 <= j < |[""] + rest| ensures ([""] + rest)[j] == "" {
              if j > 0 { assert ([""] + rest)[j] == rest[j - 1]; }
            }
          }
          if AllEmpty([""] + rest) {
            forall j | 0 <= j < |rest| ensures rest[j] == "" {
              assert ([""] + rest)[j + 1] == rest[j];
            }
          }
        }
        assert AllSeparators(s, sep) <==> AllSeparators(s[1..], sep) by {
          if AllSeparators(s[1..], sep) {
            forall i | 0 <= i < |s| ensures s[i] == sep {
              if i > 0 { assert s[i] == s[1..][i - 1]; }
            }
          }
          if AllSeparators(s, sep) {
            forall i | 0 <= i < |s[1..]| ensures s[1..][i] == sep {
              assert s[1..][i] == s[i + 1];
            }
          }
        }
      } else {
        assert SplitAll(s, sep)[0] == [s[0]] + rest[0];
        assert !AllSeparators(s, sep);
      }
    }
  }

  // ---------------------------------------------------------------------------
  // Reading the counters into a table
  // ---------------------------------------------------------------------------

  /**
   * A tuple the parser reads without an exception: the split has a first part (it is
   * empty for a tuple made of colons only), and a second one when the first is a
   * recognised name.
   */
  predicate Readable<K>(t: string, keyOf: string -> Option<K>)
  {
    var parts := JavaSplit(t, ':');
    |parts| >= 1 && (keyOf(parts[0]).Some? ==> |parts| >= 2)
  }

  /**
   * The tuples the parser throws on: one made of colons only (no parts[0]), and a
   * recognised name alone or followed by a colon with nothing after it (no parts[1]).
   */
  lemma UnreadableTuples<K>(t: string, name: string, keyOf: string -> Option<K>)
    requires name != [] && ':' !in name && keyOf(name).Some?
    ensures t != [] && AllSeparators(t, ':') ==> !Readable(t, keyOf)
    ensures !Readable(name, keyOf)
    ensures !Readable(name + ":", keyOf)
  {
    JavaSplitOfSeparators(t, ':');
    JavaSplitDropsEmptyValue(name, ':');
  }

  /** A counters string every match of which is readable. */
  predicate ReadableCounters<K>(counters: string, keyOf: string -> Option<K>)
  {
    forall t :: t in Tuples(counters) ==> Readable(t, keyOf)
  }

  /** The key and value a readable tuple sets, None for an unrecognised name. */
  function Entry<K>(t: string, keyOf: string -> Option<K>): Option<(K, string)>
    requires Readable(t, keyOf)
  {
    var parts := JavaSplit(t, ':');
    match keyOf(parts[0])
    case None => None
    case Some(k) => Some((k, parts[1]))
  }

  /** The entries the tuples put into the table, later tuples overriding earlier ones. */
  function CounterUpdates<K>(ts: seq<string>, keyOf: string -> Option<K>): map<K, string>
    requires forall t :: t in ts ==> Readable(t, keyOf)
  {
    if ts == [] then map[]
    else
      assert forall t :: t in ts[..|ts|-1] ==> t in ts;
      assert ts[|ts|-1] in ts;
      var prior := CounterUpdates(ts[..|ts|-1], keyOf);
      match Entry(ts[|ts|-1], keyOf)
      case None => prior
      case Some((k, v)) => prior[k := v]
  }

  /** The tuples fill exactly the keys of the recognised names among them. */
  lemma {:induction false} CounterUpdatesKeys<K>(ts: seq<string>, keyOf: string -> Option<K>, k: K)
    requires forall t :: t in ts ==> Readable(t, keyOf)
    ensures k in CounterUpdates(ts, keyOf) <==> exists i :: 0 <= i < |ts| && SetsKey(ts[i], keyOf, k)
  {
    if ts != [] {
      var init := ts[..|ts|-1];
      assert forall t :: t in init ==> t in ts;
      CounterUpdatesKeys(init, keyOf, k);
      assert forall i :: 0 <= i < |init| ==> init[i] == ts[i];
      assert ts[|ts|-1] in ts;
    }
  }

  /** A key holds the value of the last tuple that sets it. */
  lemma {:induction false} CounterUpdatesLastWins<K>(ts: seq<string>, keyOf: string -> Option<K>, k: K, i: nat)
    requires forall t :: t in ts ==> Readable(t, keyOf)
    requires i < |ts| && SetsKey(ts[i], keyOf, k)
    requires forall j :: i < j < |ts| ==> !SetsKey(ts[j], keyOf, k)
    ensures k in CounterUpdates(ts, keyOf)
    ensures CounterUpdates(ts, keyOf)[k] == Entry(ts[i], keyOf).value.1
  {
    var init := ts[..|ts|-1];
    assert forall t :: t in init ==> t in ts;
    assert ts[|ts|-1] in ts;
    if i < |ts| - 1 {
      assert init[i] == ts[i];
      CounterUpdatesLastWins(init, keyOf, k, i);
      assert !SetsKey(ts[|ts|-1], keyOf, k);
    }
  }

  /** t is a readable tuple whose name stands for k. */
  ghost predicate SetsKey<K>(t: string, keyOf: string -> Option<K>, k: K)
  {
    Readable(t, keyOf) && Entry(t, keyOf).Some? && Entry(t, keyOf).value.0 == k
  }

  /**
   * parseAndAdd*Counters: puts the value of every recognised counter of counters into
   * stats, tuple by tuple, under the key keyOf gives its name; other entries stay.
   */
  method AddCounters<K>(stats: map<K, string>, counters: string, keyOf: string -> Option<K>)
    returns (r: map<K, string>)
    requires ReadableCounters(counters, keyOf)
    ensures r == stats + CounterUpdates(Tuples(counters), keyOf)
  {
    var ts := Tuples(counters);
    r := stats;
    var i := 0;
    while i < |ts|
      invariant 0 <= i <= |ts|
      invariant r == stats + CounterUpdates(ts[..i], keyOf)
    {
      AddStep(stats, ts, keyOf, i);
      var e := Entry(ts[i], keyOf);
      if e.Some? {
        r := r[e.value.0 := e.value.1];
      }
      i := i + 1;
    }
    assert ts[..i] == ts;
  }

  /** The entry of the tuple at i, and what it does to the merged statistics. */
  lemma AddStep<K>(stats: map<K, string>, ts: seq<string>, keyOf: string -> Option<K>, i: nat)
    requires forall t :: t in ts ==> Readable(t, keyOf)
    requires i < |ts|
    ensures Readable(ts[i], keyOf)
    ensures Entry(ts[i], keyOf).None? ==>
              stats + CounterUpdates(ts[..i + 1], keyOf) == stats + CounterUpdates(ts[..i], keyOf)
    ensures Entry(ts[i], keyOf).Some? ==>
              var e := Entry(ts[i], keyOf);
              stats + CounterUpdates(ts[..i + 1], keyOf)
              == (stats + CounterUpdates(ts[..i], keyOf))[e.value.0 := e.value.1]
  {
    assert ts[i] in ts;
    UpdatesStep(ts, keyOf, i);
    var e := Entry(ts[i], keyOf);
    if e.Some? {
      MergeThenPut(stats, CounterUpdates(ts[..i], keyOf), e.value.0, e.value.1);
    }
  }

  /** The tuple at i adds its entry, if any, to those of the tuples before it. */
  lemma UpdatesStep<K>(ts: seq<string>, keyOf: string -> Option<K>, i: nat)
    requires forall t :: t in ts ==> Readable(t, keyOf)
    requires i < |ts|
    ensures forall t :: t in ts[..i] ==> Readable(t, keyOf)
    ensures Entry(ts[i], keyOf).None? ==> CounterUpdates(ts[..i + 1], keyOf) == CounterUpdates(ts[..i], keyOf)
    ensures Entry(ts[i], keyOf).Some? ==>
              CounterUpdates(ts[..i + 1], keyOf)
              == CounterUpdates(ts[..i], keyOf)[Entry(ts[i], keyOf).value.0 := Entry(ts[i], keyOf).value.1]
  {
    var pre := ts[..i + 1];
    assert forall t :: t in pre ==> t in ts;
    assert forall t :: t in ts[..i] ==> t in ts;
    assert pre[..|pre| - 1] == ts[..i] && pre[|pre| - 1] == ts[i];
    assert CounterUpdates(pre, keyOf) == match Entry(ts[i], keyOf)
                                           case None => CounterUpdates(ts[..i], keyOf)
                                           case Some((k, v)) => CounterUpdates(ts[..i], keyOf)[k := v];
  }

  lemma MergeThenPut<K, V>(a: map<K, V>, b: map<K, V>, k: K, v: V)
    ensures (a + b)[k := v] == a + b[k := v]
  {
  }

  // ---------------------------------------------------------------------------
  // Counters written out and read back
  // ---------------------------------------------------------------------------

  datatype Counter = Counter(name: string, value: string)

  /** A name or value the counters format can carry: non-empty, without ',' or ':'. */
  predicate Plain(s: string)
  {
    s != "" && ',' !in s && ':' !in s
  }

  /** The tuple "name:value" of each counter. */
  function Texts(cs: seq<Counter>): (r: seq<string>)
    ensures |r| == |cs|
    ensures forall i :: 0 <= i < |cs| ==> r[i] == cs[i].name + ":" + cs[i].value
  {
    seq(|cs|, i requires 0 <= i < |cs| => cs[i].name + ":" + cs[i].value)
  }

  /** The counters string that lists cs: "name:value" tuples joined by commas. */
  function Render(cs: seq<Counter>): string
  {
    Join(Texts(cs), ',')
  }

  /** The table cs describes: each recognised name's last value under its key. */
  function Recorded<K>(cs: seq<Counter>, keyOf: string -> Option<K>): map<K, string>
  {
    if cs == [] then map[]
    else
      var prior := Recorded(cs[..|cs|-1], keyOf);
      var c := cs[|cs|-1];
      match keyOf(c.name)
      case None => prior
      case Some(k) => prior[k := c.value]
  }

  /** A tuple of plain name and value splits into exactly the name and the value. */
  lemma SplitTuple(c: Counter)
    requires Plain(c.name) && Plain(c.value)
    ensures JavaSplit(c.name + ":" + c.value, ':') == [c.name, c.value]
  {
    var t := c.name + ":" + c.value;
    assert t == Join([c.name, c.value], ':');
    SplitAllJoin([c.name, c.value], ':');
    assert t[|c.name|] == ':';
  }

  /** The matches of a rendered counters string are its tuples. */
  lemma TuplesOfRender(cs: seq<Counter>)
    requires forall c :: c in cs ==> Plain(c.name) && Plain(c.value)
    ensures Tuples(Render(cs)) == Texts(cs)
  {
    var ts := Texts(cs);
    TuplesAreNonEmptyPieces(Render(cs));
    forall t | t in ts
      ensures t != "" && ',' !in t
    {
      var i :| 0 <= i < |ts| && ts[i] == t;
      assert cs[i] in cs;
      assert t == cs[i].name + ":" + cs[i].value;
      assert t[0] == cs[i].name[0];
    }
    if cs == [] {
      assert Render(cs) == "";
    } else {
      SplitAllJoin(ts, ',');
      NonEmptyOfNonEmpty(ts);
    }
  }

  /**
   * Reading back a rendered counters string: every tuple is readable, and the table it
   * fills is the one the counters describe.
   */
  lemma {:induction false} ParseRender<K>(cs: seq<Counter>, keyOf: string -> Option<K>)
    requires forall c :: c in cs ==> Plain(c.name) && Plain(c.value)
    ensures ReadableCounters(Render(cs), keyOf)
    ensures CounterUpdates(Tuples(Render(cs)), keyOf) == Recorded(cs, keyOf)
  {
    TuplesOfRender(cs);
    forall i | 0 <= i < |cs|
      ensures JavaSplit(Texts(cs)[i], ':') == [cs[i].name, cs[i].value]
    {
      assert cs[i] in cs;
      SplitTuple(cs[i]);
    }
    UpdatesOfTexts(cs, keyOf);
  }

  lemma {:induction false} UpdatesOfTexts<K>(cs: seq<Counter>, keyOf: string -> Option<K>)
    requires forall i :: 0 <= i < |cs| ==> JavaSplit(Texts(cs)[i], ':') == [cs[i].name, cs[i].value]
    ensures forall t :: t in Texts(cs) ==> Readable(t, keyOf)
    ensures CounterUpdates(Texts(cs), keyOf) == Recorded(cs, keyOf)
  {
    var ts := Texts(cs);
    if cs != [] {
      var init := cs[..|cs|-1];
      assert Texts(init) == ts[..|ts|-1];
      UpdatesOfTexts(init, keyOf);
      assert ts[|ts|-1] == ts[|cs|-1];
    }
  }
}
