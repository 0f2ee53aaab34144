/** The glossary kept in `dictionary.json`: a map from a normalised word to its
    meaning and its examples, and the pure computations that the admin commands
    and the search make over it. */
module Glossary {
  import opened Text

  /** One glossary item: `{"meaning": ..., "examples": [...]}`. */
  datatype Entry = Entry(meaning: string, examples: seq<string>)

  /** The whole document, keyed by normalised word (`Bot.DictionaryBot.Valid`
      keeps every key normalised). */
  type Dictionary = map<string, Entry>

  /** Some element of a non-empty set lies below every other one. */
  lemma {:induction false} LeastExists(words: set<string>)
    requires words != {}
    ensures exists m :: m in words && forall w :: w in words && w != m ==> Below(m, w)
    decreases words
  {
    var x :| x in words;
    var rest := words - {x};
    if rest == {} {
      assert words == {x};
    } else {
      LeastExists(rest);
      var m :| m in rest && forall w :: w in rest && w != m ==> Below(m, w);
      BelowTotal(x, m);
      if Below(x, m) {
        LeastAdd(rest, m, x);
        assert x in words;
      } else {
        assert m in words && forall w :: w in words && w != m ==> Below(m, w);
      }
    }
  }

  /** A word below the least element of a set is below all of the set. */
  lemma LeastAdd(rest: set<string>, m: string, x: string)
    requires m in rest && forall w :: w in rest && w != m ==> Below(m, w)
    requires Below(x, m)
    ensures forall w :: w in rest + {x} && w != x ==> Below(x, w)
  {
    forall w | w in rest && w != m ensures Below(x, w) {
      BelowTransitive(x, m, w);
    }
  }

  /** The first word of a non-empty set in Python's string order. */
  function Least(words: set<string>): (m: string)
    requires words != {}
    ensures m in words
    ensures forall w :: w in words && w != m ==> Below(m, w)
  {
    LeastExists(words);
    // the first word is unique: no two words are each below the other
    assert forall a, b :: a in words && b in words && Below(a, b) ==> !Below(b, a) by {
      forall a, b | a in words && b in words && Below(a, b) ensures !Below(b, a) {
        BelowAsymmetric(a, b);
      }
    }
    var m :| m in words && forall w :: w in words && w != m ==> Below(m, w);
    m
  }

  /** Strictly increasing in Python's string order (so also free of repeats). */
  predicate StrictlySorted(words: seq<string>)
  {
    forall i, j :: 0 <= i < j < |words| ==> Below(words[i], words[j])
  }

  /** `sorted(dictionary.keys())`: every key once, in increasing order. */
  function SortedWords(words: set<string>): (r: seq<string>)
    ensures |r| == |words|
    ensures forall w :: w in r <==> w in words
    ensures StrictlySorted(r)
    decreases words
  {
    if words == {} then []
    else
      var m := Least(words);
      var rest := SortedWords(words - {m});
      SortedCons(m, rest);
      [m] + rest
  }

  /** A word below every word of a sorted list can go in front of it. */
  lemma SortedCons(m: string, rest: seq<string>)
    requires StrictlySorted(rest)
    requires forall w :: w in rest ==> Below(m, w)
    ensures StrictlySorted([m] + rest)
  {
    var r := [m] + rest;
    forall i, j | 0 <= i < j < |r| ensures Below(r[i], r[j]) {
      assert r[j] == rest[j - 1];
      if i > 0 {
        assert r[i] == rest[i - 1];
      }
    }
  }

  /** A strictly sorted sequence is fixed by its elements: the sorted word list
      is the only one that `SortedWords`' contract allows. */
  lemma {:induction false} StrictlySortedUnique(a: seq<string>, b: seq<string>)
    requires StrictlySorted(a) && StrictlySorted(b)
    requires forall w :: w in a <==> w in b
    ensures a == b
    decreases |a|
  {
    if a != [] {
      assert a[0] in a;
    }
    if b != [] {
      assert b[0] in b;
    }
    if a != [] && b != [] {
      if a[0] != b[0] {
        assert b[0] in b && a[0] in a;
        var i :| 0 <= i < |a| && a[i] == b[0];
        var j :| 0 <= j < |b| && b[j] == a[0];
        assert Below(a[0], a[i]);
        assert Below(b[0], b[j]);
        BelowAsymmetric(a[0], b[0]);
        assert false;
      }
      forall w ensures w in a[1..] <==> w in b[1..] {
        if w in a[1..] {
          var i :| 1 <= i < |a| && a[i] == w;
          assert Below(a[0], w);
          BelowIrreflexive(w);
          assert w in b && w != b[0];
        }
        if w in b[1..] {
          var j :| 1 <= j < |b| && b[j] == w;
          assert Below(b[0], w);
          BelowIrreflexive(w);
          assert w in a && w != a[0];
        }
      }
      StrictlySortedUnique(a[1..], b[1..]);
      assert a == [a[0]] + a[1..] && b == [b[0]] + b[1..];
    }
  }

  function Flatten<T>(parts: seq<seq<T>>): seq<T>
  {
    if parts == [] then [] else parts[0] + Flatten(parts[1..])
  }

  /** `[words[i:i+n] for i in range(0, len(words), n)]`: consecutive parts of
      at most `n` items, all full but the last, that together give `s` back. */
  function Chunks<T>(s: seq<T>, n: nat): (parts: seq<seq<T>>)
    requires n > 0
    ensures Flatten(parts) == s
    ensures forall i :: 0 <= i < |parts| ==> 0 < |parts[i]| <= n
    ensures forall i :: 0 <= i < |parts| - 1 ==> |parts[i]| == n
    decreases |s|
  {
    if s == [] then []
    else if |s| <= n then
      assert Flatten([s]) == s + [];
      [s]
    else
      var rest := Chunks(s[n..], n);
      var parts := [s[..n]] + rest;
      assert parts[1..] == rest;
      assert s[..n] + s[n..] == s;
      parts
  }

  /** `sum(len(data['examples']) for data in dictionary.values())`. */
  function TotalExamples(d: Dictionary): nat
    decreases |d|
  {
    if d == map[] then 0
    else
      var w := Least(d.Keys);
      assert |d - {w}| < |d| by {
        assert (d - {w}).Keys == d.Keys - {w};
      }
      |d[w].examples| + TotalExamples(d - {w})
  }

  /** The total splits into any one entry's examples and the rest's. */
  lemma {:induction false} TotalExamplesRemove(d: Dictionary, w: string)
    requires w in d
    ensures TotalExamples(d) == |d[w].examples| + TotalExamples(d - {w})
    decreases |d|
  {
    var m := Least(d.Keys);
    if m != w {
      var rest := d - {m};
      assert |rest| < |d| by {
        assert rest.Keys == d.Keys - {m};
      }
      TotalExamplesRemove(rest, w);
      var without := d - {w};
      var m' := Least(without.Keys);
      if m' != m {
        assert Below(m, m');
        assert Below(m', m);
        BelowAsymmetric(m, m');
      }
      assert rest - {w} == without - {m};
    }
  }

  /** Adding or replacing an entry changes the total by the examples it brings
      and those of the entry it replaces. */
  lemma TotalExamplesUpsert(d: Dictionary, w: string, e: Entry)
    ensures TotalExamples(d[w := e]) + (if w in d then |d[w].examples| else 0)
            == TotalExamples(d) + |e.examples|
  {
    TotalExamplesRemove(d[w := e], w);
    if w in d {
      TotalExamplesRemove(d, w);
      assert d[w := e] - {w} == d - {w};
    } else {
      assert d[w := e] - {w} == d;
    }
  }

  /** The average number of examples per word, 0 for an empty dictionary. */
  function Average(examples: nat, words: nat): (avg: real)
    ensures words == 0 ==> avg == 0.0
    ensures words > 0 ==> avg * words as real == examples as real
  {
    if words > 0 then examples as real / words as real else 0.0
  }

  /** What one query word contributes to the found list. */
  function HitOf(d: Dictionary, w: string): seq<(string, Entry)>
  {
    if w in d then [(w, d[w])] else []
  }

  /** What one query word contributes to the not-found list. */
  function MissOf(d: Dictionary, w: string): seq<string>
  {
    if w in d then [] else [w]
  }

  /** The query words the dictionary holds, each with its entry, in query order. */
  function Hits(d: Dictionary, words: seq<string>): seq<(string, Entry)>
  {
    if words == [] then []
    else Hits(d, words[..|words| - 1]) + HitOf(d, words[|words| - 1])
  }

  /** The query words the dictionary lacks, in query order. */
  function Misses(d: Dictionary, words: seq<string>): seq<string>
  {
    if words == [] then []
    else Misses(d, words[..|words| - 1]) + MissOf(d, words[|words| - 1])
  }

  /** Every reported hit is a stored word shown with its stored entry, and
      every reported miss is a word the dictionary lacks. */
  lemma {:induction false} ClassifySound(d: Dictionary, words: seq<string>)
    ensures forall i :: 0 <= i < |Hits(d, words)| ==>
      Hits(d, words)[i].0 in d && Hits(d, words)[i].1 == d[Hits(d, words)[i].0]
    ensures forall i :: 0 <= i < |Misses(d, words)| ==> Misses(d, words)[i] !in d
  {
    if words != [] {
      ClassifySound(d, words[..|words| - 1]);
    }
  }

  /** Looking at one more query word extends exactly one of the two lists. */
  lemma ClassifyStep(d: Dictionary, words: seq<string>, i: nat)
    requires i < |words|
    ensures Hits(d, words[..i + 1]) == Hits(d, words[..i]) + HitOf(d, words[i])
    ensures Misses(d, words[..i + 1]) == Misses(d, words[..i]) + MissOf(d, words[i])
  {
    assert words[..i + 1][..i] == words[..i];
  }

  /** A one-word query is found or missing according to that word alone. */
  lemma ClassifySingle(d: Dictionary, w: string)
    ensures Hits(d, [w]) == HitOf(d, w)
    ensures Misses(d, [w]) == MissOf(d, w)
  {
    assert [w][..0] == [];
    assert [] + HitOf(d, w) == HitOf(d, w);
    assert [] + MissOf(d, w) == MissOf(d, w);
  }

  /** The words of a list of hits. */
  function HitWords(hits: seq<(string, Entry)>): seq<string>
  {
    if hits == [] then [] else HitWords(hits[..|hits| - 1]) + [hits[|hits| - 1].0]
  }

  lemma HitWordsSnoc(hits: seq<(string, Entry)>, p: (string, Entry))
    ensures HitWords(hits + [p]) == HitWords(hits) + [p.0]
  {
    assert (hits + [p])[..|hits|] == hits;
  }

  /** A stored word at the end of a query joins the found list only. */
  lemma ClassifyFound(d: Dictionary, words: seq<string>)
    requires words != [] && words[|words| - 1] in d
    ensures multiset(words) == multiset(words[..|words| - 1]) + multiset{words[|words| - 1]}
    ensures multiset(HitWords(Hits(d, words)))
         == multiset(HitWords(Hits(d, words[..|words| - 1]))) + multiset{words[|words| - 1]}
    ensures multiset(Misses(d, words)) == multiset(Misses(d, words[..|words| - 1]))
  {
    var init, w := words[..|words| - 1], words[|words| - 1];
    assert words == init + [w];
    HitWordsSnoc(Hits(d, init), (w, d[w]));
    assert Misses(d, init) + [] == Misses(d, init);
  }

  /** A missing word at the end of a query joins the not-found list only. */
  lemma ClassifyMissing(d: Dictionary, words: seq<string>)
    requires words != [] && words[|words| - 1] !in d
    ensures multiset(words) == multiset(words[..|words| - 1]) + multiset{words[|words| - 1]}
    ensures multiset(HitWords(Hits(d, words))) == multiset(HitWords(Hits(d, words[..|words| - 1])))
    ensures multiset(Misses(d, words))
         == multiset(Misses(d, words[..|words| - 1])) + multiset{words[|words| - 1]}
  {
    var init, w := words[..|words| - 1], words[|words| - 1];
    assert words == init + [w];
    assert Hits(d, init) + [] == Hits(d, init);
  }

  /** Every query word lands in exactly one of the two lists, repeats included. */
  lemma {:induction false} ClassifyPartition(d: Dictionary, words: seq<string>)
    ensures multiset(HitWords(Hits(d, words))) + multiset(Misses(d, words)) == multiset(words)
  {
    if words != [] {
      ClassifyPartition(d, words[..|words| - 1]);
      if words[|words| - 1] in d {
        ClassifyFound(d, words);
      } else {
        ClassifyMissing(d, words);
      }
    }
  }
}
