/**
  Characters and sets of words, as the trie sees them.

  The source classifies characters with `isalpha` and indexes its children
  with `toupper(c) - 'A'`; both are modelled here for ASCII only.  A set of
  words is a `set<string>`; `Derivative(W, a)` is the set of what is left of
  the words of `W` that begin with `a`, i.e. the word set of the child a trie
  node reaches through letter `a`.
 */
module Letters {

  /** `isalpha` in the "C" locale. */
  predicate IsAlpha(c: char) {
    'A' <= c <= 'Z' || 'a' <= c <= 'z'
  }

  predicate IsUpper(c: char) {
    'A' <= c <= 'Z'
  }

  /** `toupper` in the "C" locale: lower-case letters move to upper case, everything else is kept. */
  function Upcase(c: char): (u: char)
    ensures IsAlpha(c) ==> IsUpper(u)
    ensures IsUpper(c) || !IsAlpha(c) ==> u == c
    ensures IsAlpha(u) == IsAlpha(c)
    ensures 'a' <= c <= 'z' ==> u as int - 'A' as int == c as int - 'a' as int
  {
    if 'a' <= c <= 'z' then (c as int - 32) as char else c
  }

  /** Every character upper-cased. */
  function UpcaseWord(w: string): (u: string)
    ensures |u| == |w|
  {
    if w == [] then [] else [Upcase(w[0])] + UpcaseWord(w[1..])
  }

  /** A non-empty word made only of letters: what `add_word` accepts. */
  predicate IsAlphaWord(w: string) {
    w != [] && forall k :: 0 <= k < |w| ==> IsAlpha(w[k])
  }

  predicate IsUpperWord(w: string) {
    forall k :: 0 <= k < |w| ==> IsUpper(w[k])
  }

  /** The upper-case letter of child slot `k`. */
  function Letter(k: int): (c: char)
    requires 0 <= k < 26
    ensures IsUpper(c)
  {
    ('A' as int + k) as char
  }

  /** The child slot `toupper(c) - 'A'` of a letter. */
  function Idx(c: char): (k: int)
    requires IsAlpha(c)
    ensures 0 <= k < 26 && Letter(k) == Upcase(c)
    ensures forall l :: 0 <= l < 26 && Letter(l) == Upcase(c) ==> l == k
  {
    Upcase(c) as int - 'A' as int
  }

  /** What remains of the words of `W` that start with `a`. */
  function Derivative(W: set<string>, a: char): (r: set<string>)
    ensures forall s {:trigger s in r} :: s in r <==> [a] + s in W
  {
    var r := set w | w in W && |w| > 0 && w[0] == a :: w[1..];
    assert forall s :: [a] + s in W ==> ([a] + s)[1..] == s;
    assert forall w :: w in W && |w| > 0 && w[0] == a ==> [a] + w[1..] == w;
    r
  }

  /** Adding a word to a set adds its tail to the derivative by its first letter, and to no other. */
  lemma DerivativeInsert(W: set<string>, u: string, a: char)
    ensures Derivative(W + {u}, a) == if u != [] && u[0] == a then Derivative(W, a) + {u[1..]} else Derivative(W, a)
  {
    if u != [] && u[0] == a {
      assert [a] + u[1..] == u;
    }
  }

  /** Adding a word that starts with the letter of slot `k` changes the derivative by that letter only. */
  lemma DerivativeInsertSlot(W: set<string>, u: string, k: int)
    requires 0 <= k < 26 && u != [] && u[0] == Letter(k)
    ensures Derivative(W + {u}, Letter(k)) == Derivative(W, Letter(k)) + {u[1..]}
    ensures forall l :: 0 <= l < 26 && l != k ==> Derivative(W + {u}, Letter(l)) == Derivative(W, Letter(l))
  {
    DerivativeInsert(W, u, Letter(k));
    forall l | 0 <= l < 26 && l != k
      ensures Derivative(W + {u}, Letter(l)) == Derivative(W, Letter(l))
    {
      DerivativeInsert(W, u, Letter(l));
    }
  }

  /** What remains of the words of `W` that start with `t`, one letter at a time. */
  function Residual(W: set<string>, t: string): (r: set<string>)
    ensures forall s {:trigger s in r} :: s in r <==> t + s in W
    decreases |t|
  {
    if t == [] then
      assert forall s :: t + s == s;
      W
    else
      var r := Residual(Derivative(W, t[0]), t[1..]);
      assert forall s :: [t[0]] + (t[1..] + s) == t + s;
      r
  }

  /** Following `[a] + t` from `W` is following `a`, then `t`. */
  lemma ResidualCons(W: set<string>, a: char, t: string)
    ensures Residual(W, [a] + t) == Residual(Derivative(W, a), t)
  {
    assert forall s :: ([a] + t) + s == [a] + (t + s);
  }

  /** A word of letters is its first letter followed by a (possibly empty) word of letters. */
  lemma AlphaWordCons(w: string)
    requires w != []
    ensures IsAlphaWord(w) <==> IsAlpha(w[0]) && (|w| == 1 || IsAlphaWord(w[1..]))
  {
    assert forall k :: 1 <= k < |w| ==> w[k] == w[1..][k - 1];
    assert forall m :: 0 <= m < |w| - 1 ==> w[1..][m] == w[m + 1];
  }

  /** An upper-cased word is in `W` exactly when its tail is in the derivative by its first letter. */
  lemma UpcaseWordCons(W: set<string>, w: string)
    requires w != []
    ensures UpcaseWord(w) in W <==> UpcaseWord(w[1..]) in Derivative(W, Upcase(w[0]))
  {
    assert UpcaseWord(w) == [Upcase(w[0])] + UpcaseWord(w[1..]);
  }

  /** Upper-casing a letter word gives an upper-case letter word, and only letter words upper-case to one. */
  lemma {:induction false} UpcaseWordAlpha(w: string)
    ensures IsUpperWord(UpcaseWord(w)) <==> forall k :: 0 <= k < |w| ==> IsAlpha(w[k])
  {
    if w != [] {
      var u, v := UpcaseWord(w), UpcaseWord(w[1..]);
      UpcaseWordAlpha(w[1..]);
      assert u == [Upcase(w[0])] + v;
      assert IsUpper(u[0]) <==> IsAlpha(w[0]);
      assert (forall k :: 1 <= k < |u| ==> IsUpper(u[k])) <==> IsUpperWord(v) by {
        assert forall k :: 1 <= k < |u| ==> u[k] == v[k - 1];
        assert forall m :: 0 <= m < |v| ==> v[m] == u[m + 1];
      }
      assert (forall k :: 1 <= k < |w| ==> IsAlpha(w[k])) <==> (forall k :: 0 <= k < |w| - 1 ==> IsAlpha(w[1..][k])) by {
        assert forall k :: 1 <= k < |w| ==> w[k] == w[1..][k - 1];
        assert forall m :: 0 <= m < |w| - 1 ==> w[1..][m] == w[m + 1];
      }
    }
  }

  /** An upper-case word is its own upper-casing, and a letter word when it is not empty. */
  lemma {:induction false} UpcaseUpper(w: string)
    requires IsUpperWord(w)
    ensures UpcaseWord(w) == w
    ensures w != [] ==> IsAlphaWord(w)
  {
    if w != [] {
      assert IsUpperWord(w[1..]) by {
        assert forall m :: 0 <= m < |w| - 1 ==> w[1..][m] == w[m + 1];
      }
      UpcaseUpper(w[1..]);
      assert w == [w[0]] + w[1..];
    }
  }
}
