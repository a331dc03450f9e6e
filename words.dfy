/**
 * The dictionary trie of src/words.rs.
 *
 * A node owns 26 child slots, one per letter 'A'..'Z', and an end-of-word
 * flag. The tree of boxed nodes is laid out here as an arena: node `n` owns
 * the slots `children[n]` and the flag `isEnd[n]`, and node 0 is the root.
 * `load` walks a cursor down the tree and inserts missing children in place;
 * here the cursor is a node index and insertion appends to the arena.
 */
module Words {
  import opened Wrappers
  import opened Seqs

  /** Number of child slots of a node. */
  const Alphabet: nat := 26

  datatype Trie = Trie(children: seq<seq<Option<nat>>>, isEnd: seq<bool>)

  /** Every node has 26 slots and every child index names a node of the arena. */
  predicate WellFormed(t: Trie) {
    && |t.children| == |t.isEnd| > 0
    && (forall n :: 0 <= n < |t.children| ==> |t.children[n]| == Alphabet)
    && (forall n, k :: 0 <= n < |t.children| && 0 <= k < |t.children[n]| && t.children[n][k].Some? ==>
          t.children[n][k].value < |t.children|)
  }

  predicate IsUpperLetter(c: char) {
    'A' <= c <= 'Z'
  }

  /** The slot of an upper-case letter: `c as usize - 'A' as usize`. */
  function Slot(c: char): (k: nat)
    requires IsUpperLetter(c)
    ensures k < Alphabet
  {
    (c as int) - ('A' as int)
  }

  /** The letter a slot stands for. */
  function Letter(k: nat): (c: char)
    requires k < Alphabet
    ensures IsUpperLetter(c) && Slot(c) == k
  {
    (('A' as int) + k) as char
  }

  lemma LetterOfSlot(c: char)
    requires IsUpperLetter(c)
    ensures Letter(Slot(c)) == c
  {
  }

  /**
   * `Node::get`: the child stored for letter `c`. Any character outside
   * 'A'..'Z' has no slot: one above 'Z' indexes past the 26 slots and one below
   * 'A' wraps the unsigned subtraction (a release build), so both give None.
   */
  function Get(t: Trie, n: nat, c: char): (r: Option<nat>)
    requires WellFormed(t) && n < |t.children|
    ensures r.Some? ==> IsUpperLetter(c) && r.value < |t.children|
    ensures IsUpperLetter(c) ==> r == t.children[n][Slot(c)]
  {
    if IsUpperLetter(c) then t.children[n][Slot(c)] else None
  }

  /** Follows `get` from node `n` along the letters of `s`. */
  function Walk(t: Trie, n: nat, s: string): (r: Option<nat>)
    requires WellFormed(t) && n < |t.children|
    ensures r.Some? ==> r.value < |t.children|
    decreases |s|
  {
    if s == [] then Some(n)
    else
      match Get(t, n, s[0])
      case None => None
      case Some(child) => Walk(t, child, s[1..])
  }

  /** The trie accepts `s` when walking it from the root ends on a node whose `is_end` is set. */
  predicate Accepts(t: Trie, s: string)
    requires WellFormed(t)
  {
    var r := Walk(t, 0, s);
    r.Some? && t.isEnd[r.value]
  }

  /** Walking one more letter is one more `get` from where the walk ended. */
  lemma {:induction false} WalkSnoc(t: Trie, n: nat, s: string, c: char)
    requires WellFormed(t) && n < |t.children|
    ensures Walk(t, n, s + [c]) == match Walk(t, n, s) case None => None case Some(m) => Get(t, m, c)
    decreases |s|
  {
    if s == [] {
      assert [c][1..] == [];
    } else {
      assert (s + [c])[1..] == s[1..] + [c];
      match Get(t, n, s[0])
      case None =>
      case Some(child) => WalkSnoc(t, child, s[1..], c);
    }
  }

  /** A walk that succeeds reads only letters 'A'..'Z'. */
  lemma {:induction false} WalkLetters(t: Trie, n: nat, s: string)
    requires WellFormed(t) && n < |t.children| && Walk(t, n, s).Some?
    ensures forall i :: 0 <= i < |s| ==> IsUpperLetter(s[i])
    decreases |s|
  {
    if s != [] {
      var child := Get(t, n, s[0]).value;
      WalkLetters(t, child, s[1..]);
      assert forall i :: 1 <= i < |s| ==> s[i] == s[1..][i - 1];
    }
  }

  /** A walk that succeeds passes through a node for every prefix. */
  lemma {:induction false} WalkPrefix(t: Trie, n: nat, s: string, k: nat)
    requires WellFormed(t) && n < |t.children| && k <= |s|
    requires Walk(t, n, s).Some?
    ensures Walk(t, n, s[..k]).Some?
    decreases |s|
  {
    if k > 0 {
      var child := Get(t, n, s[0]).value;
      assert s[..k][1..] == s[1..][..k - 1];
      WalkPrefix(t, child, s[1..], k - 1);
    }
  }

  /** `t2` only adds to `t1`: no child slot that was filled changes, no end flag is cleared. */
  predicate Extends(t1: Trie, t2: Trie)
    requires WellFormed(t1) && WellFormed(t2)
  {
    && |t1.children| <= |t2.children|
    && (forall n, k :: 0 <= n < |t1.children| && 0 <= k < Alphabet && t1.children[n][k].Some? ==>
          t2.children[n][k] == t1.children[n][k])
    && (forall n :: 0 <= n < |t1.children| && t1.isEnd[n] ==> t2.isEnd[n])
  }

  /** A walk in a trie is the same walk in every trie that extends it. */
  lemma {:induction false} WalkExtends(t1: Trie, t2: Trie, n: nat, s: string)
    requires WellFormed(t1) && WellFormed(t2) && Extends(t1, t2) && n < |t1.children|
    requires Walk(t1, n, s).Some?
    ensures Walk(t2, n, s) == Walk(t1, n, s)
    decreases |s|
  {
    if s != [] {
      var child := Get(t1, n, s[0]).value;
      WalkExtends(t1, t2, child, s[1..]);
    }
  }

  /** Inserting never forgets a word: what `t1` accepts, `t2` accepts. */
  lemma AcceptsExtends(t1: Trie, t2: Trie, s: string)
    requires WellFormed(t1) && WellFormed(t2) && Extends(t1, t2)
    requires Accepts(t1, s)
    ensures Accepts(t2, s)
  {
    WalkExtends(t1, t2, 0, s);
  }

  /**
   * Ghost bookkeeping for the proofs: `labels[n]` is the string spelled from
   * the root down to node `n`. Every child edge appends its letter.
   */
  ghost predicate Labelled(t: Trie, labels: seq<string>)
    requires WellFormed(t)
  {
    && |labels| == |t.children|
    && labels[0] == []
    && (forall n, k :: 0 <= n < |t.children| && 0 <= k < Alphabet && t.children[n][k].Some? ==>
          labels[t.children[n][k].value] == labels[n] + [Letter(k)])
  }

  /** A walk spells out its labels: the tree has exactly one path to each node. */
  lemma {:induction false} WalkLabel(t: Trie, labels: seq<string>, n: nat, s: string)
    requires WellFormed(t) && Labelled(t, labels) && n < |t.children|
    requires Walk(t, n, s).Some?
    ensures labels[Walk(t, n, s).value] == labels[n] + s
    decreases |s|
  {
    if s == [] {
    } else {
      var child := Get(t, n, s[0]).value;
      LetterOfSlot(s[0]);
      WalkLabel(t, labels, child, s[1..]);
      assert labels[n] + [s[0]] + s[1..] == labels[n] + s;
    }
  }

  /** The trie holding no word: a lone root with empty slots. */
  function EmptyTrie(): (t: Trie)
    ensures WellFormed(t) && Labelled(t, [[]])
    ensures forall s :: !Accepts(t, s)
  {
    Trie([seq(Alphabet, _ => None)], [false])
  }

  /** Extending is transitive. */
  lemma ExtendsTrans(t1: Trie, t2: Trie, t3: Trie)
    requires WellFormed(t1) && WellFormed(t2) && WellFormed(t3)
    requires Extends(t1, t2) && Extends(t2, t3)
    ensures Extends(t1, t3)
  {
  }

  /** `get_or_insert_with` on an empty slot: a fresh node with no children becomes child `k` of `n`. */
  function AddChild(t: Trie, n: nat, k: nat): (t': Trie)
    requires WellFormed(t) && n < |t.children| && k < Alphabet && t.children[n][k].None?
    ensures WellFormed(t') && Extends(t, t')
    ensures |t'.children| == |t.children| + 1 && t'.children[n][k] == Some(|t.children|)
    ensures t'.isEnd == t.isEnd + [false]
  {
    Trie(t.children[n := t.children[n][k := Some(|t.children|)]] + [seq(Alphabet, _ => None)], t.isEnd + [false])
  }

  lemma AddChildLabelled(t: Trie, labels: seq<string>, n: nat, k: nat)
    requires WellFormed(t) && n < |t.children| && k < Alphabet && t.children[n][k].None?
    requires Labelled(t, labels)
    ensures Labelled(AddChild(t, n, k), labels + [labels[n] + [Letter(k)]])
  {
    var t', labels' := AddChild(t, n, k), labels + [labels[n] + [Letter(k)]];
    forall m, j | 0 <= m < |t'.children| && 0 <= j < Alphabet && t'.children[m][j].Some?
      ensures labels'[t'.children[m][j].value] == labels'[m] + [Letter(j)]
    {
      if m == n && j == k {
      } else {
        assert m < |t.children| && t'.children[m][j] == t.children[m][j];
      }
    }
  }

  /**
   * `get_or_insert_with` on slot `k` of node `n`: the child already there, or
   * a fresh node added as that child. Returns the trie and the child.
   */
  function GetOrInsert(t: Trie, n: nat, k: nat): (r: (Trie, nat))
    requires WellFormed(t) && n < |t.children| && k < Alphabet
    ensures WellFormed(r.0) && Extends(t, r.0)
    ensures r.1 < |r.0.children| && r.0.children[n][k] == Some(r.1)
    ensures t.children[n][k].Some? ==> r.0 == t
    ensures t.children[n][k].None? ==> r.1 == |t.children| && r.0.isEnd == t.isEnd + [false]
  {
    match t.children[n][k]
    case Some(child) => (t, child)
    case None => (AddChild(t, n, k), |t.children|)
  }

  /** The labels after `GetOrInsert`: a fresh child is labelled with its parent's label and its letter. */
  ghost function GrownLabels(t: Trie, labels: seq<string>, n: nat, k: nat): seq<string>
    requires WellFormed(t) && n < |t.children| && k < Alphabet && |labels| == |t.children|
  {
    if t.children[n][k].Some? then labels else labels + [labels[n] + [Letter(k)]]
  }

  lemma GetOrInsertLabelled(t: Trie, labels: seq<string>, n: nat, k: nat)
    requires WellFormed(t) && n < |t.children| && k < Alphabet && Labelled(t, labels)
    ensures Labelled(GetOrInsert(t, n, k).0, GrownLabels(t, labels, n, k))
    ensures |labels| <= |GrownLabels(t, labels, n, k)| && GrownLabels(t, labels, n, k)[..|labels|] == labels
  {
    if t.children[n][k].None? {
      AddChildLabelled(t, labels, n, k);
      assert (labels + [labels[n] + [Letter(k)]])[..|labels|] == labels;
    } else {
      TakeAll(labels);
    }
  }

  /**
   * The state of the cursor loop of `load` after `i` letters of `word`:
   * `t'` extends `t` by fresh nodes only, and `node` is where the letters so
   * far lead.
   */
  ghost predicate Descended(t: Trie, labels: seq<string>, t': Trie, labels': seq<string>, word: string, i: nat, node: nat)
    requires WellFormed(t)
  {
    && i <= |word|
    && WellFormed(t') && Labelled(t', labels') && Extends(t, t')
    && |labels| <= |labels'| && labels'[..|labels|] == labels
    && (forall n :: 0 <= n < |t'.isEnd| ==> t'.isEnd[n] == (n < |t.isEnd| && t.isEnd[n]))
    && node < |t'.children| && labels'[node] == word[..i]
    && Walk(t', 0, word[..i]) == Some(node)
  }

  lemma DescendStart(t: Trie, labels: seq<string>, word: string)
    requires WellFormed(t) && Labelled(t, labels)
    ensures Descended(t, labels, t, labels, word, 0, 0)
  {
    TakeAll(labels);
  }

  lemma DescendStep(t: Trie, labels: seq<string>, t': Trie, labels': seq<string>, word: string, i: nat, node: nat)
    requires WellFormed(t) && Descended(t, labels, t', labels', word, i, node) && i < |word|
    requires IsUpperLetter(word[i])
    ensures var r := GetOrInsert(t', node, Slot(word[i]));
      Descended(t, labels, r.0, GrownLabels(t', labels', node, Slot(word[i])), word, i + 1, r.1)
  {
    var k := Slot(word[i]);
    var r := GetOrInsert(t', node, k);
    var labels'' := GrownLabels(t', labels', node, k);
    LetterOfSlot(word[i]);
    GetOrInsertLabelled(t', labels', node, k);
    ExtendsTrans(t, t', r.0);
    assert labels''[..|labels|] == labels by {
      assert labels''[..|labels'|] == labels';
      assert labels''[..|labels|] == labels''[..|labels'|][..|labels|];
    }
    WalkExtends(t', r.0, 0, word[..i]);
    WalkSnoc(r.0, 0, word[..i], word[i]);
    TakeSnoc(word, i);
  }

  /** Setting `is_end` on the node the whole word leads to. */
  lemma DescendEnd(t: Trie, labels: seq<string>, t': Trie, labels': seq<string>, word: string, node: nat)
    requires WellFormed(t) && Descended(t, labels, t', labels', word, |word|, node)
    ensures Inserted(t, labels, Trie(t'.children, t'.isEnd[node := true]), labels', word)
  {
    TakeAll(word);
    var t'' := Trie(t'.children, t'.isEnd[node := true]);
    assert Extends(t', t'');
    ExtendsTrans(t, t', t'');
    WalkExtends(t', t'', 0, word);
  }

  /**
   * `t'` is `t` with `word` inserted: nothing filled is changed, the word is
   * accepted, and every node newly flagged as an end is labelled `word`.
   */
  ghost predicate Inserted(t: Trie, labels: seq<string>, t': Trie, labels': seq<string>, word: string)
    requires WellFormed(t)
  {
    && WellFormed(t') && Labelled(t', labels')
    && Extends(t, t')
    && Accepts(t', word)
    && |labels| <= |labels'| && labels'[..|labels|] == labels
    && forall n :: 0 <= n < |t'.children| && t'.isEnd[n] ==>
         (n < |t.children| && t.isEnd[n]) || labels'[n] == word
  }

  /**
   * The body of the loop of `load` for one word: walk the cursor down from
   * the root, creating each missing child (`get_or_insert_with`), then set
   * `is_end` on the node reached.
   */
  method Insert(t: Trie, ghost labels: seq<string>, word: string) returns (t': Trie, ghost labels': seq<string>)
    requires WellFormed(t) && Labelled(t, labels)
    requires forall i :: 0 <= i < |word| ==> IsUpperLetter(word[i])
    ensures Inserted(t, labels, t', labels', word)
  {
    t' := t;
    labels' := labels;
    var node: nat := 0;
    DescendStart(t, labels, word);
    for i := 0 to |word|
      invariant Descended(t, labels, t', labels', word, i, node)
    {
      DescendStep(t, labels, t', labels', word, i, node);
      var k := Slot(word[i]);
      labels' := GrownLabels(t', labels', node, k);
      t', node := GetOrInsert(t', node, k).0, GetOrInsert(t', node, k).1;
    }
    DescendEnd(t, labels, t', labels', word, node);
    t' := Trie(t'.children, t'.isEnd[node := true]);
  }

  /** Every node flagged `is_end` is labelled with one of `ws`. */
  ghost predicate EndsIn(t: Trie, labels: seq<string>, ws: seq<string>)
    requires WellFormed(t) && |labels| == |t.children|
  {
    forall n :: 0 <= n < |t.children| && t.isEnd[n] ==> labels[n] in ws
  }

  lemma InsertEndsIn(t: Trie, labels: seq<string>, t': Trie, labels': seq<string>, ws: seq<string>, w: string)
    requires WellFormed(t) && |labels| == |t.children| && WellFormed(t') && |labels'| == |t'.children|
    requires |labels| <= |labels'| && labels'[..|labels|] == labels
    requires forall n :: 0 <= n < |t'.children| && t'.isEnd[n] ==> (n < |t.children| && t.isEnd[n]) || labels'[n] == w
    requires EndsIn(t, labels, ws)
    ensures EndsIn(t', labels', ws + [w])
  {
    forall n | 0 <= n < |t'.children| && t'.isEnd[n]
      ensures labels'[n] in ws + [w]
    {
      if n < |t.children| && t.isEnd[n] {
        assert labels'[n] == labels[n];
      }
    }
  }

  /** A trie whose end nodes are labelled with words of `ws` accepts nothing else. */
  lemma AcceptsOnlyEnds(t: Trie, labels: seq<string>, ws: seq<string>)
    requires WellFormed(t) && Labelled(t, labels) && EndsIn(t, labels, ws)
    ensures forall s :: Accepts(t, s) ==> s in ws
  {
    forall s | Accepts(t, s)
      ensures s in ws
    {
      WalkLabel(t, labels, 0, s);
      var n := Walk(t, 0, s).value;
      assert labels[n] == [] + s == s;
      assert t.isEnd[n];
    }
  }

  /**
   * The state of `load` after the first `i` words: they are all accepted,
   * every end node spells one of them, and `maxLen` is their longest length
   * (0 before the first word).
   */
  ghost predicate LoadedPrefix(t: Trie, labels: seq<string>, words: seq<string>, i: nat, maxLen: nat)
  {
    && i <= |words|
    && WellFormed(t) && Labelled(t, labels)
    && AcceptsAll(t, words[..i])
    && EndsIn(t, labels, words[..i])
    && (forall j :: 0 <= j < i ==> |words[j]| <= maxLen)
    && (i == 0 ==> maxLen == 0)
    && (i > 0 ==> exists j :: 0 <= j < i && |words[j]| == maxLen)
  }

  lemma LoadStep(t: Trie, labels: seq<string>, t': Trie, labels': seq<string>, words: seq<string>, i: nat, maxLen: nat, maxLen': nat)
    requires i < |words| && LoadedPrefix(t, labels, words, i, maxLen)
    requires Inserted(t, labels, t', labels', words[i])
    requires maxLen' == if |words[i]| > maxLen then |words[i]| else maxLen
    ensures LoadedPrefix(t', labels', words, i + 1, maxLen')
  {
    AcceptedStep(t, t', words, i);
    TakeSnoc(words, i);
    InsertEndsIn(t, labels, t', labels', words[..i], words[i]);
    MaxLenStep(words, i, maxLen);
  }

  /** The trie accepts every word of `ws`. */
  ghost predicate AcceptsAll(t: Trie, ws: seq<string>)
    requires WellFormed(t)
    decreases |ws|
  {
    ws == [] || (AcceptsAll(t, ws[..|ws| - 1]) && Accepts(t, ws[|ws| - 1]))
  }

  lemma {:induction false} AcceptsAllExtends(t: Trie, t': Trie, ws: seq<string>)
    requires WellFormed(t) && WellFormed(t') && Extends(t, t') && AcceptsAll(t, ws)
    ensures AcceptsAll(t', ws)
    decreases |ws|
  {
    if ws != [] {
      AcceptsAllExtends(t, t', ws[..|ws| - 1]);
      AcceptsExtends(t, t', ws[|ws| - 1]);
    }
  }

  lemma {:induction false} AcceptsAllMember(t: Trie, ws: seq<string>, k: nat)
    requires WellFormed(t) && AcceptsAll(t, ws) && k < |ws|
    ensures Accepts(t, ws[k])
    decreases |ws|
  {
    if k < |ws| - 1 {
      AcceptsAllMember(t, ws[..|ws| - 1], k);
    }
  }

  lemma AcceptedStep(t: Trie, t': Trie, words: seq<string>, i: nat)
    requires i < |words| && WellFormed(t) && WellFormed(t') && Extends(t, t')
    requires AcceptsAll(t, words[..i])
    requires Accepts(t', words[i])
    ensures AcceptsAll(t', words[..i + 1])
  {
    AcceptsAllExtends(t, t', words[..i]);
    TakeSnoc(words, i);
    assert words[..i + 1][..i] == words[..i];
  }

  lemma MaxLenStep(words: seq<string>, i: nat, maxLen: nat)
    requires i < |words|
    requires forall j :: 0 <= j < i ==> |words[j]| <= maxLen
    requires i == 0 ==> maxLen == 0
    requires i > 0 ==> exists j :: 0 <= j < i && |words[j]| == maxLen
    ensures var maxLen' := if |words[i]| > maxLen then |words[i]| else maxLen;
      && (forall j :: 0 <= j < i + 1 ==> |words[j]| <= maxLen')
      && (exists j :: 0 <= j < i + 1 && |words[j]| == maxLen')
  {
    var maxLen' := if |words[i]| > maxLen then |words[i]| else maxLen;
    if |words[i]| > maxLen || i == 0 {
      assert |words[i]| == maxLen';
    } else {
      var j :| 0 <= j < i && |words[j]| == maxLen;
    }
  }

  /**
   * `load` over a given word list: insert every word, track the longest
   * length. Every letter must be in 'A'..'Z': the direct slot index panics
   * otherwise.
   */
  method Load(words: seq<string>) returns (root: Trie, maxLen: nat)
    requires forall w, i :: w in words && 0 <= i < |w| ==> IsUpperLetter(w[i])
    ensures WellFormed(root)
    ensures forall s :: Accepts(root, s) <==> s in words
    ensures forall w, k :: w in words && 0 <= k <= |w| ==> Walk(root, 0, w[..k]).Some?
    ensures forall w :: w in words ==> |w| <= maxLen
    ensures words == [] ==> maxLen == 0
    ensures words != [] ==> exists w :: w in words && |w| == maxLen
  {
    maxLen := 0;
    root := EmptyTrie();
    ghost var labels: seq<string> := [[]];
    LoadStart(words);
    for i := 0 to |words|
      invariant LoadedPrefix(root, labels, words, i, maxLen)
    {
      ghost var before, beforeLabels, beforeMax := root, labels, maxLen;
      UpperWord(words, i);
      root, labels := Insert(root, labels, words[i]);
      if |words[i]| > maxLen {
        maxLen := |words[i]|;
      }
      LoadStep(before, beforeLabels, root, labels, words, i, beforeMax, maxLen);
    }
    LoadComplete(root, labels, words, maxLen);
  }

  lemma UpperWord(words: seq<string>, i: nat)
    requires i < |words| && forall w, k :: w in words && 0 <= k < |w| ==> IsUpperLetter(w[k])
    ensures forall k :: 0 <= k < |words[i]| ==> IsUpperLetter(words[i][k])
  {
    assert words[i] in words;
  }

  lemma LoadStart(words: seq<string>)
    ensures LoadedPrefix(EmptyTrie(), [[]], words, 0, 0)
  {
  }

  lemma LoadComplete(t: Trie, labels: seq<string>, words: seq<string>, maxLen: nat)
    requires LoadedPrefix(t, labels, words, |words|, maxLen)
    ensures forall s :: Accepts(t, s) <==> s in words
    ensures forall w, k :: w in words && 0 <= k <= |w| ==> Walk(t, 0, w[..k]).Some?
    ensures forall w :: w in words ==> |w| <= maxLen
    ensures words == [] ==> maxLen == 0
    ensures words != [] ==> exists w :: w in words && |w| == maxLen
  {
    TakeAll(words);
    AcceptsOnlyEnds(t, labels, words);
    forall w | w in words
      ensures Accepts(t, w)
    {
      var k :| 0 <= k < |words| && words[k] == w;
      AcceptsAllMember(t, words, k);
    }
    forall w, k | w in words && 0 <= k <= |w|
      ensures Walk(t, 0, w[..k]).Some?
    {
      WalkPrefix(t, 0, w, k);
    }
  }
}
