/**
 * `IRCHash` and `irc_downcase` of lib/rhuidean/stateful_client.rb:305-329:
 * a hash whose `[]` and `[]=` fold the key by the casemapping it was built
 * with, while `delete`, `delete_if` and `clear` are the inherited `Hash`
 * methods and use the key as given.
 */
module Casemap {
  import opened Text

  /** `@casemapping`: `:rfc`, `:ascii`, or nil when none was given. */
  datatype Casemapping = Rfc | Ascii | Unset

  /** The RFC 1459 fold of one character (section 2.2 of RFC 1459): ASCII
      letters to lower case, and `{`, `}`, `|`, `^` to `[`, `]`, `\`, `~`. */
  function FoldChar(c: char): char {
    var l := LowerChar(c);
    if l == '{' then '['
    else if l == '}' then ']'
    else if l == '|' then '\\'
    else if l == '^' then '~'
    else l
  }

  /** `irc_downcase`: the RFC 1459 fold under `:rfc`, the identity otherwise. */
  function IrcDowncase(cm: Casemapping, s: string): (r: string)
    ensures |r| == |s|
    ensures cm != Rfc ==> r == s
  {
    if cm == Rfc then seq(|s|, i requires 0 <= i < |s| => FoldChar(s[i])) else s
  }

  // ---------------------------------------------------------------------
  // Which names the fold identifies

  /** Reference for the RFC 1459 rule: two characters name the same thing
      when they are equal, an upper- and lower-case ASCII letter, or one of
      the pairs `[{`, `]}`, `\|`, `~^`. */
  predicate SameChar(a: char, b: char) {
    a == b || CasePair(a, b) || CasePair(b, a) || RfcPair(a, b) || RfcPair(b, a)
  }

  predicate CasePair(a: char, b: char) {
    'A' <= a <= 'Z' && b as int == a as int + 32
  }

  predicate RfcPair(a: char, b: char) {
    (a == '[' && b == '{') || (a == ']' && b == '}') || (a == '\\' && b == '|') || (a == '~' && b == '^')
  }

  predicate SameName(x: string, y: string) {
    |x| == |y| && forall i :: 0 <= i < |x| ==> SameChar(x[i], y[i])
  }

  lemma FoldCharSame(a: char, b: char)
    ensures FoldChar(a) == FoldChar(b) <==> SameChar(a, b)
  {
  }

  /** Under `:rfc` two names fold to the same key exactly when RFC 1459 calls
      them equal, character by character. */
  lemma FoldSameName(x: string, y: string)
    ensures IrcDowncase(Rfc, x) == IrcDowncase(Rfc, y) <==> SameName(x, y)
  {
    var fx, fy := IrcDowncase(Rfc, x), IrcDowncase(Rfc, y);
    if fx == fy {
      forall i | 0 <= i < |x| ensures SameChar(x[i], y[i]) {
        assert fx[i] == FoldChar(x[i]) && fy[i] == FoldChar(y[i]);
        FoldCharSame(x[i], y[i]);
      }
    }
    if SameName(x, y) {
      forall i | 0 <= i < |x| ensures fx[i] == fy[i] {
        FoldCharSame(x[i], y[i]);
      }
    }
  }

  /** Folding twice is folding once, under every casemapping. */
  lemma {:induction false} FoldIdempotent(cm: Casemapping, s: string)
    ensures IrcDowncase(cm, IrcDowncase(cm, s)) == IrcDowncase(cm, s)
  {
    if cm == Rfc {
      var f := IrcDowncase(Rfc, s);
      forall i | 0 <= i < |s| ensures FoldChar(f[i]) == f[i] {
        assert f[i] == FoldChar(s[i]);
      }
    }
  }

  /** `"#Test"`, `"#test"` and `"#TEST"` are one key under `:rfc`; under
      `:ascii` and nil they stay three. */
  lemma ChannelNameExample()
    ensures IrcDowncase(Rfc, "#Test") == IrcDowncase(Rfc, "#test") == IrcDowncase(Rfc, "#TEST") == "#test"
    ensures IrcDowncase(Ascii, "#Test") != IrcDowncase(Ascii, "#test")
    ensures IrcDowncase(Unset, "#TEST") != IrcDowncase(Unset, "#test")
  {
    FoldSameName("#Test", "#test");
    FoldSameName("#TEST", "#test");
    FoldSameName("#test", "#test");
    FoldIdempotent(Rfc, "#test");
    assert IrcDowncase(Rfc, "#test") == "#test" by {
      var f := IrcDowncase(Rfc, "#test");
      assert forall i :: 0 <= i < 5 ==> f[i] == "#test"[i];
    }
  }

  // ---------------------------------------------------------------------
  // The fold as written

  /** `downcase.tr('{}|^', '[]\\~')` as Ruby reads it: in the replacement
      set a backslash escapes the character after it, so the set is `[]~`,
      and `tr` pads it with its last character.  `|` therefore becomes `~`. */
  function FoldCharAsWritten(c: char): char {
    var l := LowerChar(c);
    if l == '{' then '['
    else if l == '}' then ']'
    else if l == '|' || l == '^' then '~'
    else l
  }

  function IrcDowncaseAsWritten(cm: Casemapping, s: string): (r: string)
    ensures |r| == |s|
    ensures cm != Rfc ==> r == s
  {
    if cm == Rfc then seq(|s|, i requires 0 <= i < |s| => FoldCharAsWritten(s[i])) else s
  }

  /** The written fold keys `a|b` with `a^b`, which RFC 1459 keeps apart,
      and apart from `a\b`, which RFC 1459 calls the same name. */
  lemma AsWrittenMisfoldsBar()
    ensures IrcDowncaseAsWritten(Rfc, "a|b") == IrcDowncaseAsWritten(Rfc, "a^b") == "a~b"
    ensures IrcDowncaseAsWritten(Rfc, "a|b") != IrcDowncaseAsWritten(Rfc, "a\\b")
    ensures !SameName("a|b", "a^b") && SameName("a|b", "a\\b")
    ensures IrcDowncase(Rfc, "a|b") == IrcDowncase(Rfc, "a\\b") != IrcDowncase(Rfc, "a^b")
  {
    var w1, w2, w3 := IrcDowncaseAsWritten(Rfc, "a|b"), IrcDowncaseAsWritten(Rfc, "a^b"), IrcDowncaseAsWritten(Rfc, "a\\b");
    assert w1[1] == '~' && w2[1] == '~' && w3[1] == '\\';
    assert w1 == "a~b" && w2 == "a~b";
    assert !SameChar('|', '^');
    assert "a|b"[1] == '|' && "a^b"[1] == '^';
    assert SameChar("a|b"[1], "a\\b"[1]);
    FoldSameName("a|b", "a\\b");
    FoldSameName("a|b", "a^b");
  }

  // ---------------------------------------------------------------------
  // IRCHash

  datatype IrcHash<V> = IrcHash(cm: Casemapping, entries: map<string, V>)

  /** `IRCHash.new(casemapping)`. */
  function NewHash<V>(cm: Casemapping): (h: IrcHash<V>)
    ensures h.cm == cm && h.entries == map[]
  {
    IrcHash(cm, map[])
  }

  function Key<V>(h: IrcHash<V>, k: string): string {
    IrcDowncase(h.cm, k)
  }

  /** Every stored key is already folded, which `[]=` guarantees. */
  predicate Normal<V>(h: IrcHash<V>) {
    forall k :: k in h.entries ==> Key(h, k) == k
  }

  /** `h[k]`: the entry under the folded key, nil when there is none. */
  function Get<V>(h: IrcHash<V>, k: string): (r: Option<V>)
    ensures r.Some? <==> Key(h, k) in h.entries
    ensures r.Some? ==> r.value == h.entries[Key(h, k)]
  {
    if Key(h, k) in h.entries then Some(h.entries[Key(h, k)]) else None
  }

  /** `h[k] = v`: stored under the folded key.  Every spelling of `k`
      reads `v` back; every other key reads what it read before. */
  function Set<V>(h: IrcHash<V>, k: string, v: V): (r: IrcHash<V>)
    ensures r.cm == h.cm
    ensures forall k2 :: Key(h, k2) == Key(h, k) ==> Get(r, k2) == Some(v)
    ensures forall k2 :: Key(h, k2) != Key(h, k) ==> Get(r, k2) == Get(h, k2)
    ensures Normal(h) ==> Normal(r)
    ensures r.entries.Keys == h.entries.Keys + {Key(h, k)}
    ensures forall k2 :: k2 in r.entries ==> r.entries[k2] == v || (k2 in h.entries && r.entries[k2] == h.entries[k2])
  {
    FoldIdempotent(h.cm, k);
    IrcHash(h.cm, h.entries[Key(h, k) := v])
  }

  /** `h[k] ||= v`. */
  function SetIfAbsent<V>(h: IrcHash<V>, k: string, v: V): (r: IrcHash<V>)
    ensures Get(h, k).Some? ==> r == h
    ensures Get(h, k).None? ==> r == Set(h, k, v)
  {
    if Get(h, k).Some? then h else Set(h, k, v)
  }

  /** `Hash#delete(k)`, inherited: the key is not folded, so only an entry
      stored under exactly `k` goes. */
  function Delete<V>(h: IrcHash<V>, k: string): (r: IrcHash<V>)
    ensures r.cm == h.cm && r.entries.Keys == h.entries.Keys - {k}
    ensures forall k2 :: k2 in r.entries ==> r.entries[k2] == h.entries[k2]
    ensures Normal(h) ==> Normal(r)
  {
    IrcHash(h.cm, h.entries - {k})
  }

  /** `Hash#delete_if`, inherited: drops the entries whose value fails `keep`. */
  function DeleteIf<V>(h: IrcHash<V>, drop: V -> bool): (r: IrcHash<V>)
    ensures r.cm == h.cm
    ensures forall k :: k in r.entries <==> k in h.entries && !drop(h.entries[k])
    ensures forall k :: k in r.entries ==> r.entries[k] == h.entries[k]
    ensures Normal(h) ==> Normal(r)
  {
    IrcHash(h.cm, map k | k in h.entries && !drop(h.entries[k]) :: h.entries[k])
  }

  /** `Hash#clear`: empty, same casemapping. */
  function Clear<V>(h: IrcHash<V>): (r: IrcHash<V>)
    ensures r.cm == h.cm && r.entries == map[]
  {
    IrcHash(h.cm, map[])
  }

  /** Deleting by the spelling a key was stored under works only when that
      spelling is already folded. */
  lemma DeleteMissesUnfolded<V>(h: IrcHash<V>, k: string)
    requires Normal(h)
    ensures Key(h, k) != k ==> Delete(h, k) == h
    ensures Key(h, k) == k ==> forall k2 :: Key(h, k2) == k ==> Get(Delete(h, k), k2).None?
  {
    if Key(h, k) != k {
      assert k !in h.entries;
      assert h.entries - {k} == h.entries;
    }
  }

  /** Under `:rfc`, a user stored as `Bob` survives `delete("Bob")`. */
  lemma DeleteDoesNotFoldExample<V>(v: V)
    ensures var h := Set(NewHash<V>(Rfc), "Bob", v);
            Get(Delete(h, "Bob"), "bob") == Some(v)
  {
    var h := Set(NewHash<V>(Rfc), "Bob", v);
    assert Key(h, "Bob") == "bob" by {
      var f := IrcDowncase(Rfc, "Bob");
      assert f[0] == 'b' && f[1] == 'o' && f[2] == 'b';
    }
    assert Key(h, "bob") == "bob" by {
      var f := IrcDowncase(Rfc, "bob");
      assert f[0] == 'b' && f[1] == 'o' && f[2] == 'b';
    }
    assert "Bob" != "bob";
  }
}
