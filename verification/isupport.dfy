/**
 * The pieces of `do_rpl_isupport` (lib/rhuidean/stateful_client.rb:122-169)
 * that read one `KEY=VALUE` token: the split at `=`, the `CHANMODES` and
 * `CHANTYPES` values, `PREFIX_RE`, and `@status_modes`, an insertion-ordered
 * `Hash` from mode letter to prefix symbol.
 */
module Isupport {
  import opened Text
  import opened Parser

  // ---------------------------------------------------------------------
  // String#split with a one-character separator

  lemma {:induction false} FieldsNoSep(s: string, sep: char)
    requires sep !in s
    ensures Fields(s, sep) == [s]
    decreases |s|
  {
    if |s| > 0 {
      FieldsNoSep(s[1..], sep);
      assert [s[0]] + s[1..] == s;
    }
  }

  lemma {:induction false} FieldsCons(a: string, sep: char, rest: string)
    requires sep !in a
    ensures Fields(a + [sep] + rest, sep) == [a] + Fields(rest, sep)
    decreases |a|
  {
    var s := a + [sep] + rest;
    if |a| == 0 {
      assert s == [sep] + rest;
      assert s[1..] == rest;
    } else {
      assert s[0] == a[0] && s[1..] == a[1..] + [sep] + rest;
      FieldsCons(a[1..], sep, rest);
      assert [a[0]] + a[1..] == a;
    }
  }

  /** `key=value` splits into the key and the value when neither holds an
      `=` and the value is not empty. */
  lemma SplitPair(key: string, sep: char, value: string)
    requires sep !in key && sep !in value && |value| > 0
    ensures SplitOn(key + [sep] + value, sep) == [key, value]
  {
    FieldsCons(key, sep, value);
    FieldsNoSep(value, sep);
  }

  /** The first field is the text before the first separator. */
  lemma {:induction false} FieldsFirst(s: string, sep: char)
    ensures Fields(s, sep)[0] <= s
    ensures |Fields(s, sep)[0]| < |s| ==> s[|Fields(s, sep)[0]|] == sep
    decreases |s|
  {
    if |s| > 0 && s[0] != sep {
      FieldsFirst(s[1..], sep);
    }
  }

  /** `param.split('=')` read as `name, value`: nil past the end.  A token
      without `=` is a bare name, the name is the text before the first
      `=`, and neither part holds an `=`. */
  function Token(param: string): (r: (Option<string>, Option<string>))
    ensures r.0.None? ==> r.1.None?
    ensures '=' !in param ==> r == (if param == "" then None else Some(param), None)
    ensures r.0.Some? ==> r.0.value <= param && '=' !in r.0.value
                          && (|r.0.value| < |param| ==> param[|r.0.value|] == '=')
    ensures r.1.Some? ==> '=' !in r.1.value
  {
    var fs := SplitOn(param, '=');
    FieldsFirst(param, '=');
    if '=' in param then (At(fs, 0), At(fs, 1))
    else FieldsNoSep(param, '='); (At(fs, 0), At(fs, 1))
  }

  /** A token `KEY=VALUE` reads back as its key and value. */
  lemma TokenReads(key: string, value: string)
    requires '=' !in key && '=' !in value && |value| > 0
    ensures Token(key + "=" + value) == (Some(key), Some(value))
  {
    assert key + "=" + value == key + ['='] + value;
    SplitPair(key, '=', value);
  }

  // ---------------------------------------------------------------------
  // CHANMODES and CHANTYPES

  /** `@channel_modes`: the four classes of `CHANMODES`, each a list of
      one-letter strings, nil until the first `CHANMODES` token. */
  datatype ChanModes = ChanModes(list: Option<seq<string>>, always: Option<seq<string>>,
                                 setOnly: Option<seq<string>>, noParam: Option<seq<string>>)

  const NoChanModes: ChanModes := ChanModes(None, None, None, None)

  /** `listp, alwaysp, setp, nop = value.split(',')` and one `split('')`
      for each: a nil value, or fewer than four fields, raises on
      `nil.split`. */
  function ChanModesOf(value: Option<string>): (r: Result<ChanModes>)
    ensures value.None? ==> r.Raised?
    ensures value.Some? ==> (r.Ok? <==> |SplitOn(value.value, ',')| >= 4)
    ensures r.Ok? ==> var fs := SplitOn(value.value, ',');
                      r.value == ChanModes(Some(Chars(fs[0])), Some(Chars(fs[1])), Some(Chars(fs[2])), Some(Chars(fs[3])))
  {
    match value
    case None => Raised("undefined method `split' for nil:NilClass")
    case Some(v) =>
      var fs := SplitOn(v, ',');
      if |fs| < 4 then Raised("undefined method `split' for nil:NilClass")
      else Ok(ChanModes(Some(Chars(fs[0])), Some(Chars(fs[1])), Some(Chars(fs[2])), Some(Chars(fs[3]))))
  }

  /** `CHANMODES=A,B,C,D` files each comma-separated class under its own
      key, one letter per entry (as in `CHANMODES=eIb,k,l,imnpst`). */
  lemma ChanModesReads(a: string, b: string, c: string, d: string)
    requires ',' !in a && ',' !in b && ',' !in c && ',' !in d && |d| > 0
    ensures ChanModesOf(Some(a + "," + b + "," + c + "," + d)) ==
              Ok(ChanModes(Some(Chars(a)), Some(Chars(b)), Some(Chars(c)), Some(Chars(d))))
  {
    var v := a + "," + b + "," + c + "," + d;
    FourFields(a, b, c, d);
    assert SplitOn(v, ',') == [a, b, c, d];
  }

  lemma FourFields(a: string, b: string, c: string, d: string)
    requires ',' !in a && ',' !in b && ',' !in c && ',' !in d && |d| > 0
    ensures Fields(a + "," + b + "," + c + "," + d, ',') == [a, b, c, d]
  {
    var t2 := c + [','] + d;
    var t1 := b + [','] + t2;
    assert a + "," + b + "," + c + "," + d == a + [','] + t1;
    FieldsNoSep(d, ',');
    FieldsCons(c, ',', d);
    FieldsCons(b, ',', t2);
    FieldsCons(a, ',', t1);
  }

  /** `value.split('')` for `CHANTYPES`: nil raises. */
  function ChanTypesOf(value: Option<string>): (r: Result<seq<string>>)
    ensures value.None? <==> r.Raised?
    ensures r.Ok? ==> |r.value| == |value.value| && forall i :: 0 <= i < |r.value| ==> r.value[i] == [value.value[i]]
  {
    match value
    case None => Raised("undefined method `split' for nil:NilClass")
    case Some(v) => Ok(Chars(v))
  }

  // ---------------------------------------------------------------------
  // PREFIX

  /** `PREFIX_RE = /^\((\w+)\)(.*)$/` on one line: the letters between the
      parentheses and everything after them.  `\w` cannot match `)`, so the
      letters are the whole word run. */
  function MatchPrefixLine(v: string): (r: Option<(string, string)>)
    requires NoNewline(v)
    ensures r.Some? ==> Word(r.value.0) && v == "(" + r.value.0 + ")" + r.value.1
  {
    if |v| == 0 || v[0] != '(' then None
    else
      var n := WordLength(v[1..]);
      if n == 0 || 1 + n >= |v| || v[1 + n] != ')' then None
      else
        assert v == "(" + v[1..1 + n] + ")" + v[2 + n..];
        Some((v[1..1 + n], v[2 + n..]))
  }

  /** The length of the first line of `v`, up to its first newline. */
  function LineLength(v: string): (n: nat)
    ensures n <= |v| && NoNewline(v[..n]) && (n < |v| ==> v[n] == '\n')
    decreases |v|
  {
    if |v| == 0 || v[0] == '\n' then 0
    else
      var n := 1 + LineLength(v[1..]);
      assert v[..n] == [v[0]] + v[1..][..n - 1];
      n
  }

  /** `PREFIX_RE.match(value)`: Ruby's `^` and `$` match at every line
      boundary, so the first line that matches on its own gives the
      groups, and `(.*)` stops at that line's end. */
  function MatchPrefix(v: string): (r: Option<(string, string)>)
    ensures r.Some? ==> Word(r.value.0) && NoNewline(r.value.1)
    ensures NoNewline(v) ==> r == MatchPrefixLine(v)
    decreases |v|
  {
    var n := LineLength(v);
    assert NoNewline(v) ==> v[..n] == v;
    match MatchPrefixLine(v[..n])
    case Some(p) =>
      NoNewlineSuffix("(" + p.0 + ")", p.1);
      Some(p)
    case None => if n < |v| then MatchPrefix(v[n + 1..]) else None
  }

  /** Every `(letters)symbols` value matches, with those two parts; a
      value that does not start with `(` or has no letters does not. */
  lemma MatchPrefixReads(letters: string, symbols: string)
    requires Word(letters) && NoNewline(symbols)
    ensures NoNewline("(" + letters + ")" + symbols)
    ensures MatchPrefix("(" + letters + ")" + symbols) == Some((letters, symbols))
  {
    PrefixValueLine(letters, symbols);
    PrefixLineReads(letters, symbols);
  }

  lemma PrefixValueLine(letters: string, symbols: string)
    requires Word(letters) && NoNewline(symbols)
    ensures NoNewline("(" + letters + ")" + symbols)
  {
    var v := "(" + letters + ")" + symbols;
    forall i | 0 <= i < |v| ensures v[i] != '\n' {
      if 1 <= i < 1 + |letters| {
        assert v[i] == letters[i - 1] && IsWord(letters[i - 1]);
      } else if i >= 2 + |letters| {
        assert v[i] == symbols[i - 2 - |letters|];
      }
    }
  }

  lemma PrefixLineReads(letters: string, symbols: string)
    requires Word(letters) && NoNewline("(" + letters + ")" + symbols)
    ensures MatchPrefixLine("(" + letters + ")" + symbols) == Some((letters, symbols))
  {
    var v := "(" + letters + ")" + symbols;
    assert v[1..] == letters + (")" + symbols);
    WordRun(letters, ")" + symbols);
    assert v[1 + |letters|] == ')';
    assert v[1..1 + |letters|] == letters;
    assert v[2 + |letters|..] == symbols;
  }

  lemma {:induction false} WordRun(w: string, rest: string)
    requires Word(w) && (|rest| == 0 || !IsWord(rest[0]))
    ensures WordLength(w + rest) == |w|
    decreases |w|
  {
    assert (w + rest)[1..] == w[1..] + rest;
    if |w| > 1 {
      WordRun(w[1..], rest);
    } else {
      assert w[1..] + rest == rest;
    }
  }

  lemma PrefixRejects()
    ensures MatchPrefix("()@+").None? && MatchPrefix("ov@+").None? && MatchPrefix("(ov").None?
  {
    EmptyLettersRejected();
    NoParenRejected();
    UnclosedRejected();
  }

  lemma EmptyLettersRejected()
    ensures MatchPrefix("()@+").None?
  {
    var v := "()@+";
    assert NoNewline(v);
    assert WordLength(v[1..]) == 0;
  }

  lemma NoParenRejected()
    ensures MatchPrefix("ov@+").None?
  {
    assert NoNewline("ov@+");
  }

  lemma UnclosedRejected()
    ensures MatchPrefix("(ov").None?
  {
    var v := "(ov";
    assert NoNewline(v);
    assert v[1..] == "ov" && "ov"[1..] == "v" && "v"[1..] == "";
    assert WordLength(v[1..]) == 2;
  }

  /** `@status_modes`, an insertion-ordered hash from letter to symbol. */
  type StatusModes = seq<(string, Option<string>)>

  function Lookup(sm: StatusModes, k: string): (r: Option<Option<string>>)
    ensures r.None? <==> forall i :: 0 <= i < |sm| ==> sm[i].0 != k
    decreases |sm|
  {
    if |sm| == 0 then None
    else if sm[0].0 == k then Some(sm[0].1)
    else Lookup(sm[1..], k)
  }

  predicate DistinctKeys(sm: StatusModes) {
    forall i, j :: 0 <= i < j < |sm| ==> sm[i].0 != sm[j].0
  }

  /** Every entry under `k` takes the value `v`; the keys and their order
      stay as they were. */
  function Replace(sm: StatusModes, k: string, v: Option<string>): (r: StatusModes)
    ensures |r| == |sm| && forall i :: 0 <= i < |sm| ==> r[i].0 == sm[i].0
    ensures Lookup(sm, k).Some? ==> Lookup(r, k) == Some(v)
    ensures forall k2 :: k2 != k ==> Lookup(r, k2) == Lookup(sm, k2)
    decreases |sm|
  {
    if |sm| == 0 then []
    else
      var rest := Replace(sm[1..], k, v);
      var r := [if sm[0].0 == k then (k, v) else sm[0]] + rest;
      assert r[1..] == rest;
      r
  }

  /** `@status_modes[k] = v`: a key already there keeps its place and takes
      the new value; a new key goes last. */
  function Store(sm: StatusModes, k: string, v: Option<string>): (r: StatusModes)
    ensures Lookup(r, k) == Some(v)
    ensures forall k2 :: k2 != k ==> Lookup(r, k2) == Lookup(sm, k2)
    ensures DistinctKeys(sm) ==> DistinctKeys(r)
    ensures Lookup(sm, k).Some? ==> |r| == |sm| && forall i :: 0 <= i < |sm| ==> r[i].0 == sm[i].0
    ensures Lookup(sm, k).None? ==> r == sm + [(k, v)]
  {
    if Lookup(sm, k).Some? then Replace(sm, k, v)
    else
      var r := sm + [(k, v)];
      LookupAppend(sm, k, v);
      r
  }

  lemma {:induction false} LookupAppend(sm: StatusModes, k: string, v: Option<string>)
    requires Lookup(sm, k).None?
    ensures Lookup(sm + [(k, v)], k) == Some(v)
    ensures forall k2 :: k2 != k ==> Lookup(sm + [(k, v)], k2) == Lookup(sm, k2)
    decreases |sm|
  {
    if |sm| > 0 {
      assert (sm + [(k, v)])[1..] == sm[1..] + [(k, v)];
      LookupAppend(sm[1..], k, v);
    }
  }

  /** The letter/symbol pairs of `modes.each_with_index { |m, i| ... }`:
      the i-th letter gets the i-th symbol, nil when the symbols run out. */
  function PrefixPairs(letters: string, symbols: string): (r: StatusModes)
    ensures |r| == |letters|
    ensures forall i :: 0 <= i < |letters| ==> r[i] == ([letters[i]], if i < |symbols| then Some([symbols[i]]) else None)
  {
    seq(|letters|, i requires 0 <= i < |letters| => ([letters[i]], if i < |symbols| then Some([symbols[i]]) else None))
  }

  function StoreAll(sm: StatusModes, pairs: StatusModes): (r: StatusModes)
    ensures DistinctKeys(sm) ==> DistinctKeys(r)
    decreases |pairs|
  {
    if |pairs| == 0 then sm else StoreAll(Store(sm, pairs[0].0, pairs[0].1), pairs[1..])
  }

  /** After storing pairs with distinct keys, every stored key reads its
      own value and every other key reads what it read before. */
  lemma {:induction false} StoreAllReads(sm: StatusModes, pairs: StatusModes, k: string)
    requires DistinctKeys(pairs)
    ensures forall i :: 0 <= i < |pairs| && pairs[i].0 == k ==> Lookup(StoreAll(sm, pairs), k) == Some(pairs[i].1)
    ensures (forall i :: 0 <= i < |pairs| ==> pairs[i].0 != k) ==> Lookup(StoreAll(sm, pairs), k) == Lookup(sm, k)
    decreases |pairs|
  {
    if |pairs| > 0 {
      var s1 := Store(sm, pairs[0].0, pairs[0].1);
      assert DistinctKeys(pairs[1..]) by {
        forall i, j | 0 <= i < j < |pairs[1..]| ensures pairs[1..][i].0 != pairs[1..][j].0 {
          assert pairs[1..][i] == pairs[i + 1] && pairs[1..][j] == pairs[j + 1];
        }
      }
      StoreAllReads(s1, pairs[1..], k);
      forall i | 1 <= i < |pairs| ensures pairs[i] == pairs[1..][i - 1] { }
    }
  }

  /** `PREFIX=(ov)@+`: `o` is shown as `@` and `v` as `+`, in that order. */
  lemma PrefixExample()
    ensures NoNewline("(ov)@+") && MatchPrefix("(ov)@+") == Some(("ov", "@+"))
    ensures StoreAll([], PrefixPairs("ov", "@+")) == [("o", Some("@")), ("v", Some("+"))]
  {
    PrefixExampleMatches();
    PrefixExampleStores();
  }

  lemma PrefixExampleMatches()
    ensures NoNewline("(ov)@+") && MatchPrefix("(ov)@+") == Some(("ov", "@+"))
  {
    assert Word("ov");
    MatchPrefixReads("ov", "@+");
    assert "(ov)@+" == "(" + "ov" + ")" + "@+";
  }

  lemma PrefixExampleStores()
    ensures StoreAll([], PrefixPairs("ov", "@+")) == [("o", Some("@")), ("v", Some("+"))]
  {
    var ps := PrefixPairs("ov", "@+");
    var s1: StatusModes := [("o", Some("@"))];
    var s2 := s1 + [("v", Some("+"))];
    assert ps == [("o", Some("@")), ("v", Some("+"))];
    assert Lookup([], "o").None?;
    assert Store([], "o", Some("@")) == [] + s1;
    assert s1[0].0 != "v";
    assert Store(s1, "v", Some("+")) == s2;
    assert StoreAll([], ps) == StoreAll(s1, ps[1..]);
    assert StoreAll(s1, ps[1..]) == StoreAll(s2, ps[1..][1..]);
    assert ps[1..][1..] == [];
  }
}
