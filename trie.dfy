/**
  The `Dictionary` of boggle.cpp: a 26-way prefix trie.

  Every node owns up to 26 children, one per letter A-Z, and a flag
  `isSelfWord` that says whether the path from the root to this node spells
  a stored word.  The ghost field `Words` is the set of words stored below
  this node, relative to it (so `[]` is in it exactly when the flag is set);
  `Valid()` ties it to the flag and to the children's `Words`, and `Repr`
  is the set of objects the subtree owns.
 */
module Trie {
  import opened Letters

  class Dictionary {
    var isSelfWord: bool
    const letters: array<Dictionary?>
    ghost var Words: set<string>
    ghost var Repr: set<object>

    ghost predicate Valid()
      reads this, Repr
      decreases Repr, 1
    {
      && this in Repr && letters in Repr && letters.Length == 26
      && (isSelfWord <==> [] in Words)
      && (forall w :: w in Words && w != [] ==> IsUpper(w[0]))
      && (forall k :: 0 <= k < 26 ==> SlotValid(k))
      && (forall k, l :: 0 <= k < 26 && 0 <= l < 26 && k != l ==> Separate(k, l))
    }

    /**
      Slot `k` is either empty, and no stored word continues with letter `k`,
      or holds a valid child, owned by this node, that stores exactly the
      words continuing with letter `k`.
     */
    ghost predicate SlotValid(k: int)
      reads this, Repr
      requires this in Repr && letters in Repr && letters.Length == 26 && 0 <= k < 26
      decreases Repr, 0
    {
      if letters[k] == null then
        Derivative(Words, Letter(k)) == {}
      else
        && letters[k] in Repr && letters[k].Repr <= Repr
        && this !in letters[k].Repr && letters !in letters[k].Repr
        && letters[k].Valid() && letters[k].Words == Derivative(Words, Letter(k))
    }

    /** Two slots own disjoint subtrees. */
    ghost predicate Separate(k: int, l: int)
      reads this, Repr
      requires this in Repr && letters in Repr && letters.Length == 26 && 0 <= k < 26 && 0 <= l < 26
    {
      letters[k] != null && letters[l] != null && letters[k] in Repr && letters[l] in Repr ==>
        letters[k].Repr !! letters[l].Repr
    }

    /** A node with no children that stores no word. */
    constructor ()
      ensures Valid() && fresh(Repr)
      ensures Words == {} && !isSelfWord
    {
      isSelfWord := false;
      letters := new Dictionary?[26](_ => null);
      Words := {};
      new;
      Repr := {this, letters};
      assert forall k :: 0 <= k < 26 ==> SlotValid(k);
      assert forall k, l :: 0 <= k < 26 && 0 <= l < 26 && k != l ==> Separate(k, l);
    }

    /** The child for letter `c`, in either case, or null; nothing is created. */
    function SubDictionary(c: char): (d: Dictionary?)
      reads this, Repr
      requires Valid() && IsAlpha(c)
      ensures d != null ==> d in Repr && d.Repr <= Repr && this !in d.Repr
      ensures d != null ==> d.Valid() && d.Words == Derivative(Words, Upcase(c))
      ensures d == null ==> Derivative(Words, Upcase(c)) == {}
    {
      assert SlotValid(Idx(c));
      letters[Idx(c)]
    }

    /**
      Whether `w` (the `length` characters at `word`) is stored, ignoring case.
      An empty `w` stands for a call that reads the terminating NUL.
     */
    function IsWord(w: string): (b: bool)
      reads this, Repr
      requires Valid()
      ensures b <==> IsAlphaWord(w) && UpcaseWord(w) in Words
      decreases Repr
    {
      if w == [] || !IsAlpha(w[0]) then
        false
      else
        var sub := SubDictionary(w[0]);
        AlphaWordCons(w);
        UpcaseWordCons(Words, w);
        if sub == null then
          false
        else if |w| == 1 then
          sub.isSelfWord
        else
          sub.IsWord(w[1..])
    }

    /** Sets the flag of this node, so that it stores the empty word relative to it. */
    method MarkSelfWord()
      requires Valid()
      modifies this
      ensures Valid() && Repr == old(Repr)
      ensures Words == old(Words) + {[]}
    {
      isSelfWord := true;
      Words := Words + {[]};
      forall l | 0 <= l < 26
        ensures SlotValid(l)
      {
        assert old(SlotValid(l));
        DerivativeInsert(old(Words), [], Letter(l));
        if letters[l] != null {
          assert old(letters[l].Valid());
        }
      }
      forall k, l | 0 <= k < 26 && 0 <= l < 26 && k != l
        ensures Separate(k, l)
      {
        assert old(Separate(k, l));
      }
    }

    /** The child for letter slot `k`, created empty when it is missing. */
    method MakeSubDictionary(k: int) returns (sub: Dictionary)
      requires Valid() && 0 <= k < 26
      modifies this, letters
      ensures Valid() && fresh(Repr - old(Repr)) && old(Repr) <= Repr
      ensures sub == letters[k] && Words == old(Words)
      ensures forall l :: 0 <= l < 26 && l != k ==> letters[l] == old(letters[l])
    ensures old(letters[k]) != null ==> sub == old(letters[k]) && Repr == old(Repr)
    ensures old(letters[k]) == null ==> fresh(sub) && sub.Words == {}
    {
      if letters[k] == null {
        sub := new Dictionary();
        letters[k] := sub;
        Repr := Repr + sub.Repr;
        forall l | 0 <= l < 26
          ensures SlotValid(l)
        {
          assert old(SlotValid(l));
          if l != k && letters[l] != null {
            assert old(letters[l].Valid());
          }
        }
        forall l, m | 0 <= l < 26 && 0 <= m < 26 && l != m
          ensures Separate(l, m)
        {
          assert old(SlotValid(l)) && old(SlotValid(m));
          if l != k && m != k {
            assert old(Separate(l, m));
          }
        }
      } else {
        sub := letters[k];
        assert SlotValid(k);
      }
    }

    /**
      Stores `w` when it is a non-empty word of letters and reports whether it
      did.  Nodes are created along the way for the leading letters, also when
      a later character turns out not to be a letter; no node is removed and no
      flag is cleared.
     */
    method AddWord(w: string) returns (ok: bool)
      requires Valid()
      modifies Repr
      ensures Valid() && fresh(Repr - old(Repr))
      ensures ok <==> IsAlphaWord(w)
      ensures Words == if ok then old(Words) + {UpcaseWord(w)} else old(Words)
      ensures old(Words) <= Words
      decreases |w|, 1
    {
      if w == [] || !IsAlpha(w[0]) {
        return false;
      }
      var sub := MakeSubDictionary(Idx(w[0]));
      ok := AddBelow(sub, w);
    }

    /**
      The rest of `AddWord` once the child `sub` for the first letter of `w`
      exists: marks `sub` when `w` has one letter, else stores the tail of `w`
      in `sub`, and records `w` here when that succeeded.
     */
    method AddBelow(sub: Dictionary, w: string) returns (ok: bool)
      requires Valid() && w != [] && IsAlpha(w[0]) && sub == letters[Idx(w[0])]
      modifies Repr
      ensures Valid() && fresh(Repr - old(Repr))
      ensures ok <==> IsAlphaWord(w)
      ensures Words == if ok then old(Words) + {UpcaseWord(w)} else old(Words)
      decreases |w|, 0
    {
      AlphaWordCons(w);
      var k := Idx(w[0]);
      ghost var u := UpcaseWord(w);
      assert u == [Letter(k)] + UpcaseWord(w[1..]);
      assert SlotValid(k);
      if |w| == 1 {
        sub.MarkSelfWord();
        ok := true;
      } else {
        ok := sub.AddWord(w[1..]);
      }
      Repr := Repr + sub.Repr;
      if ok {
        Words := Words + {u};
        DerivativeInsertSlot(old(Words), u, k);
      }
      assert old(SlotValid(k));
      SlotsAfterChildUpdate(k);
      SeparateAfterChildUpdate(k);
    }

    /** A node whose objects are all unchanged is still valid and stores the same words. */
    twostate lemma ValidFrame()
      requires old(Valid()) && unchanged(old(Repr))
      ensures Valid() && Repr == old(Repr) && Words == old(Words)
    {
    }

    /**
      After child `k` has changed (and only it, with objects it allocated),
      and this node's `Repr` and `Words` have been brought up to date, every
      slot is valid again.
     */
    twostate lemma SlotsAfterChildUpdate(k: int)
      requires old(Valid()) && 0 <= k < 26 && old(letters[k]) != null
      requires unchanged(old(Repr) - old(letters[k].Repr) - {this})
      requires old(letters[k]).Valid() && fresh(old(letters[k]).Repr - old(letters[k].Repr))
      requires Repr == old(Repr) + old(letters[k]).Repr
      requires old(letters[k]).Words == Derivative(Words, Letter(k))
      requires forall l :: 0 <= l < 26 && l != k ==> Derivative(Words, Letter(l)) == Derivative(old(Words), Letter(l))
      ensures forall l :: 0 <= l < 26 ==> SlotValid(l)
    {
      var sub := old(letters[k]);
      assert old(SlotValid(k));
      assert letters in old(Repr) - old(sub.Repr) - {this};
      assert forall l :: 0 <= l < 26 ==> letters[l] == old(letters[l]);
      forall l | 0 <= l < 26
        ensures SlotValid(l)
      {
        assert old(SlotValid(l));
        if l != k && letters[l] != null {
          assert old(Separate(k, l));
          assert old(letters[l].Valid());
        }
      }
    }

    /** Under the same conditions, the slots still own disjoint subtrees. */
    twostate lemma SeparateAfterChildUpdate(k: int)
      requires old(Valid()) && 0 <= k < 26 && old(letters[k]) != null
      requires unchanged(old(Repr) - old(letters[k].Repr) - {this})
      requires fresh(old(letters[k]).Repr - old(letters[k].Repr))
      requires Repr == old(Repr) + old(letters[k]).Repr
      ensures forall l, m :: 0 <= l < 26 && 0 <= m < 26 && l != m ==> Separate(l, m)
    {
      var sub := old(letters[k]);
      assert old(SlotValid(k));
      assert letters in old(Repr) - old(sub.Repr) - {this};
      assert forall l :: 0 <= l < 26 ==> letters[l] == old(letters[l]);
      forall l, m | 0 <= l < 26 && 0 <= m < 26 && l != m
        ensures Separate(l, m)
      {
        assert old(Separate(l, m));
        assert old(SlotValid(l)) && old(SlotValid(m));
        if (l == k || m == k) && letters[l] != null && letters[m] != null {
          var c := if l == k then letters[m] else letters[l];
          assert old(c.Valid() && c in c.Repr && c.Repr !! sub.Repr);
          assert c.Repr == old(c.Repr) && c.Repr <= old(Repr);
          assert c.Repr !! sub.Repr - old(sub.Repr);
          assert c.Repr !! sub.Repr;
          assert letters[l].Repr !! letters[m].Repr;
        } else if letters[l] != null && letters[m] != null {
          assert old(letters[l].Valid() && letters[l] in letters[l].Repr);
          assert old(letters[m].Valid() && letters[m] in letters[m].Repr);
          assert old(Separate(l, k) && Separate(m, k));
          assert old(letters[l].Repr !! sub.Repr) && old(letters[m].Repr !! sub.Repr);
          assert letters[l].Repr == old(letters[l].Repr);
          assert letters[m].Repr == old(letters[m].Repr);
        }
      }
    }
  }

  /**
    A stored word is found in any mix of letter cases: every string that
    upper-cases to it passes `IsWord`.
   */
  lemma IsWordAnyCase(dict: Dictionary, w: string, v: string)
    requires dict.Valid() && IsAlphaWord(w) && UpcaseWord(w) in dict.Words
    requires UpcaseWord(v) == UpcaseWord(w)
    ensures dict.IsWord(v) && dict.IsWord(w)
  {
    UpcaseWordAlpha(w);
    UpcaseWordAlpha(v);
  }
}
