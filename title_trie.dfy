/** The title autocomplete index: a character trie whose nodes are objects
    holding a child map and an end-of-word flag, and the set of strings a
    prefix search returns, stated over the set of inserted (folded) titles. */
module TitleTrie {
  import opened Text

  /** `u` starts with `t`. */
  predicate StartsWith(u: string, t: string) {
    |t| <= |u| && u[..|t|] == t
  }

  /** The strings collected below the node reached by `path`: every word
      that extends `path`, spelled as `spelled` followed by the word's
      characters after `path`. */
  ghost function Matches(spelled: string, path: string, words: set<string>): set<string> {
    set w | w in words && StartsWith(w, path) :: spelled + w[|path|..]
  }

  /** What `search(prefix)` returns, as a set: the caller's prefix exactly as
      given, followed by the rest of every word that extends its folded form. */
  ghost function Completions(prefix: string, words: set<string>): set<string> {
    Matches(prefix, Lower(prefix), words)
  }

  /** Every collected string begins with the spelling it was collected under. */
  lemma MatchesStartWith(spelled: string, path: string, words: set<string>, r: string)
    requires r in Matches(spelled, path, words)
    ensures StartsWith(r, spelled)
    ensures r == spelled || (|r| > |spelled| && r[..|spelled| + 1] == spelled + [r[|spelled|]])
  {
    var w :| w in words && StartsWith(w, path) && r == spelled + w[|path|..];
    assert r[..|spelled|] == spelled;
    if r != spelled {
      assert r[..|spelled| + 1] == spelled + [r[|spelled|]];
    }
  }

  /** Soundness of a search: a result is the prefix as given followed by
      the rest of an inserted word that extends the folded prefix. */
  lemma CompletionSound(prefix: string, words: set<string>, r: string)
    requires r in Completions(prefix, words)
    ensures StartsWith(r, prefix)
    ensures Lower(prefix) + r[|prefix|..] in words
  {
    var w :| w in words && StartsWith(w, Lower(prefix)) && r == prefix + w[|prefix|..];
    assert r[|prefix|..] == w[|prefix|..];
    assert Lower(prefix) + w[|prefix|..] == w;
    MatchesStartWith(prefix, Lower(prefix), words, r);
  }

  /** Completeness of a search: every inserted word that extends the folded
      prefix comes back, spelled from the prefix as given. */
  lemma CompletionComplete(prefix: string, words: set<string>, w: string)
    requires w in words && StartsWith(w, Lower(prefix))
    ensures prefix + w[|prefix|..] in Completions(prefix, words)
  {
  }

  /** A search returns nothing exactly when no inserted word extends the
      folded prefix. */
  lemma CompletionsEmpty(prefix: string, words: set<string>)
    ensures Completions(prefix, words) == {} <==> forall w <- words :: !StartsWith(w, Lower(prefix))
  {
    if w :| w in words && StartsWith(w, Lower(prefix)) {
      CompletionComplete(prefix, words, w);
    }
  }

  /** A title that was inserted is found by searching for it, exactly as it
      was spelled when inserted. */
  lemma {:induction false} InsertedTitleFound(title: string, words: set<string>)
    requires Lower(title) in words
    ensures title in Completions(title, words)
  {
    var w := Lower(title);
    assert StartsWith(w, Lower(title));
    assert w[|title|..] == [];
    assert title + w[|title|..] == title;
  }

  /** What one more insertion adds to any search: at most the one string
      spelled from the new word; nothing already returned disappears, and
      inserting a word twice adds nothing the second time. */
  lemma CompletionsAfterInsert(prefix: string, words: set<string>, title: string)
    ensures Completions(prefix, words + {Lower(title)}) ==
      Completions(prefix, words) +
      (if StartsWith(Lower(title), Lower(prefix)) then {prefix + Lower(title)[|prefix|..]} else {})
  {
  }

  /** The empty prefix lists every inserted word. */
  lemma EmptyPrefixListsAll(words: set<string>)
    ensures Completions("", words) == words
  {
    forall w | w in words ensures w in Completions("", words) {
      assert "" + w[0..] == w;
    }
  }

  /** A result, searched for in turn, is itself found: its folded form is an
      inserted word. */
  lemma ResultIsInserted(prefix: string, words: set<string>, r: string)
    requires forall w <- words :: IsLower(w)
    requires r in Completions(prefix, words)
    ensures Lower(r) in words
    ensures r in Completions(r, words)
  {
    CompletionSound(prefix, words, r);
    var rest := r[|prefix|..];
    var w := Lower(prefix) + rest;
    assert r == prefix + rest;
    LowerAppend(prefix, rest);
    assert IsLower(rest) by {
      forall i | 0 <= i < |rest| ensures LowerChar(rest[i]) == rest[i] {
        assert rest[i] == w[|prefix| + i];
      }
    }
    LowerOfLower(rest);
    assert Lower(r) == w;
    InsertedTitleFound(r, words);
  }

  /** Every word the trie holds was folded on the way in, so every word is
      lower case. */
  lemma {:induction false} FoldedWordsAreLower(words: set<string>, title: string)
    requires forall w <- words :: IsLower(w)
    ensures forall w <- words + {Lower(title)} :: IsLower(w)
  {
    LowerIsLower(title);
  }

  /** Titles "Alpha", "Apple" and "Banana" inserted: "Ap" finds "Apple",
      spelled with the capital the caller typed; "z" finds nothing. The
      folded "alpha" does not extend "ap" and is not returned. */
  lemma ThreeTitles()
    ensures Completions("Ap", {Lower("Alpha"), Lower("Apple"), Lower("Banana")}) == {"Apple"}
    ensures Completions("z", {Lower("Alpha"), Lower("Apple"), Lower("Banana")}) == {}
  {
    var words := {Lower("Alpha"), Lower("Apple"), Lower("Banana")};
    assert Lower("Alpha") == "alpha" && Lower("Apple") == "apple" && Lower("Banana") == "banana";
    assert Lower("Ap") == "ap" && Lower("z") == "z";
    assert "alpha"[..2][1] == 'l' && "banana"[..2][0] == 'b';
    assert StartsWith("apple", "ap") && !StartsWith("alpha", "ap") && !StartsWith("banana", "ap");
    assert "Ap" + "apple"[2..] == "Apple";
    assert !StartsWith("alpha", "z") && !StartsWith("apple", "z") && !StartsWith("banana", "z") by {
      assert "alpha"[..1][0] == 'a' && "apple"[..1][0] == 'a' && "banana"[..1][0] == 'b';
    }
    CompletionsEmpty("z", words);
  }

  /** The strings collected below a node whose children already visited are
      `done`: the node's own word, and the words continuing with a character
      in `done`. */
  ghost function MatchesVia(spelled: string, path: string, words: set<string>, done: set<char>): set<string> {
    set w | w in words && StartsWith(w, path) && (w == path || w[|path|] in done) :: spelled + w[|path|..]
  }

  lemma MatchesViaNone(spelled: string, path: string, words: set<string>)
    ensures MatchesVia(spelled, path, words, {}) == if path in words then {spelled} else {}
  {
    if path in words {
      assert StartsWith(path, path) && spelled + path[|path|..] == spelled;
    }
  }

  /** Visiting child `c` adds exactly the strings collected below it. */
  lemma MatchesViaStep(spelled: string, path: string, words: set<string>, done: set<char>, c: char)
    ensures MatchesVia(spelled, path, words, done + {c}) ==
      MatchesVia(spelled, path, words, done) + Matches(spelled + [c], path + [c], words)
  {
    var lhs := MatchesVia(spelled, path, words, done + {c});
    var rhs := MatchesVia(spelled, path, words, done) + Matches(spelled + [c], path + [c], words);
    forall r | r in lhs ensures r in rhs {
      var w :| w in words && StartsWith(w, path) && (w == path || w[|path|] in done + {c}) && r == spelled + w[|path|..];
      if w != path && w[|path|] !in done {
        assert w[..|path| + 1] == path + [c];
        assert w[|path|..] == [c] + w[|path| + 1..];
        assert r == (spelled + [c]) + w[|path + [c]|..];
      }
    }
    forall r | r in rhs ensures r in lhs {
      if r !in MatchesVia(spelled, path, words, done) {
        var w :| w in words && StartsWith(w, path + [c]) && r == (spelled + [c]) + w[|path| + 1..];
        assert w[..|path|] == (path + [c])[..|path|] == path;
        assert w[|path|] == c;
        assert w[|path|..] == [c] + w[|path| + 1..];
        assert r == spelled + w[|path|..];
      }
    }
  }

  /** Once every child that some word continues with has been visited, the
      collection is complete. */
  lemma MatchesViaAll(spelled: string, path: string, words: set<string>, done: set<char>)
    requires forall w <- words | Below(w, path) :: w[|path|] in done
    ensures MatchesVia(spelled, path, words, done) == Matches(spelled, path, words)
  {
  }

  /** One character position shared by every title that passes through it. */
  class TrieNode {
    var children: map<char, TrieNode>
    var isEndOfWord: bool

    constructor ()
      ensures children == map[] && !isEndOfWord
    {
      children := map[];
      isEndOfWord := false;
    }
  }

  /** The shape of a trie, with the nodes' child maps taken as values:
      `pathOf` gives the path of characters leading to each node (its keys are
      all the nodes), `kids` each node's children, `words` the paths whose
      node ends a word, and `depth` bounds every path. */
  ghost predicate Shape(pathOf: map<TrieNode, string>, kids: map<TrieNode, map<char, TrieNode>>,
                        words: set<string>, depth: nat)
  {
    && kids.Keys == pathOf.Keys
    && OnePathEach(pathOf)
    && (forall n <- pathOf :: |pathOf[n]| <= depth)
    && EdgesSpell(pathOf, kids)
    && PathsClosed(pathOf, kids)
    && WordsClosed(pathOf, kids, words)
  }

  /** No two nodes are reached by the same path. */
  ghost predicate OnePathEach(pathOf: map<TrieNode, string>) {
    forall n <- pathOf, m <- pathOf :: pathOf[n] == pathOf[m] ==> n == m
  }

  /** Each child edge extends the path by its character. */
  ghost predicate EdgesSpell(pathOf: map<TrieNode, string>, kids: map<TrieNode, map<char, TrieNode>>) {
    forall n, c {:trigger kids[n][c]} | n in kids && n in pathOf && c in kids[n] ::
      kids[n][c] in pathOf && pathOf[kids[n][c]] == pathOf[n] + [c]
  }

  /** A path that goes on past a node continues through one of its children. */
  ghost predicate PathsClosed(pathOf: map<TrieNode, string>, kids: map<TrieNode, map<char, TrieNode>>) {
    forall m, n {:trigger Below(pathOf[m], pathOf[n])} | m in pathOf && n in pathOf && Below(pathOf[m], pathOf[n]) ::
      n in kids && pathOf[m][|pathOf[n]|] in kids[n]
  }

  /** So does a word. */
  ghost predicate WordsClosed(pathOf: map<TrieNode, string>, kids: map<TrieNode, map<char, TrieNode>>, words: set<string>) {
    forall w, n {:trigger Below(w, pathOf[n])} | w in words && n in pathOf && Below(w, pathOf[n]) ::
      n in kids && w[|pathOf[n]|] in kids[n]
  }

  /** `u` goes on past `t`. */
  predicate Below(u: string, t: string) {
    StartsWith(u, t) && u != t
  }

  lemma PrefixStep(s: string, i: nat)
    requires i < |s|
    ensures s[..i] + [s[i]] == s[..i + 1]
  {
  }

  /** The prefixes of `s` of length at most `i`: the paths an insertion of
      `s` has walked after `i` steps. */
  ghost function Prefixes(s: string, i: nat): (ps: set<string>)
    requires i <= |s|
    ensures forall p <- ps :: StartsWith(s, p)
  {
    set j | 0 <= j <= i :: s[..j]
  }

  lemma PrefixesStep(s: string, i: nat)
    requires i < |s|
    ensures Prefixes(s, i + 1) == Prefixes(s, i) + {s[..i + 1]}
  {
  }

  lemma PrefixesNone(s: string)
    ensures Prefixes(s, 0) == {[]}
  {
    assert s[..0] == [];
  }

  /** Adding a new key to a map adds exactly its value to the map's values. */
  lemma AddKeyValues<K, V>(m: map<K, V>, k: K, v: V)
    requires k !in m
    ensures m[k := v].Values == m.Values + {v}
  {
    assert k in m[k := v] && m[k := v][k] == v;
    forall x <- m.Values ensures x in m[k := v].Values {
      var j :| j in m && m[j] == x;
      assert m[k := v][j] == x;
    }
    forall x <- m[k := v].Values ensures x in m.Values + {v} {
      var j :| j in m[k := v] && m[k := v][j] == x;
      if j != k {
        assert j in m && m[j] == x;
      }
    }
  }

  /** No node is dead: every path other than the root's leads on to some
      word. */
  ghost predicate Pruned(paths: set<string>, words: set<string>) {
    forall p <- paths | p != [] :: exists w <- words :: StartsWith(w, p)
  }

  /** The paths an insertion creates are prefixes of the word it adds, so an
      insertion keeps every node on the way to some word. */
  lemma {:induction false} PrunedAfterInsert(paths: set<string>, words: set<string>, word: string)
    requires Pruned(paths, words)
    ensures Pruned(paths + Prefixes(word, |word|), words + {word})
  {
    forall p <- paths + Prefixes(word, |word|) | p != []
      ensures exists w <- words + {word} :: StartsWith(w, p)
    {
      if p in paths {
        var w :| w in words && StartsWith(w, p);
        assert w in words + {word};
      } else {
        assert StartsWith(word, p);
      }
    }
  }

  /** The trie has a child under `c` at a node exactly when some word
      continues the node's path with `c`: `WordsClosed` gives one direction
      and `Pruned` the other. */
  lemma ChildIffContinued(pathOf: map<TrieNode, string>, kids: map<TrieNode, map<char, TrieNode>>,
                          words: set<string>, depth: nat, n: TrieNode, c: char)
    requires Shape(pathOf, kids, words, depth) && Pruned(pathOf.Values, words) && n in pathOf
    ensures c in kids[n] <==> exists w <- words :: Below(w, pathOf[n]) && w[|pathOf[n]|] == c
  {
    var path := pathOf[n];
    if c in kids[n] {
      var m := kids[n][c];
      assert pathOf[m] == path + [c] && pathOf[m] in pathOf.Values;
      var w :| w in words && StartsWith(w, path + [c]);
      BelowStep(w, path, c);
    }
  }

  /** Every node of `before` is still there, on the same path. */
  ghost predicate Extends(before: map<TrieNode, string>, after: map<TrieNode, string>) {
    forall n <- before :: n in after && after[n] == before[n]
  }

  /** Every node of `before` still has all the children it had. */
  ghost predicate Grows(before: map<TrieNode, map<char, TrieNode>>, after: map<TrieNode, map<char, TrieNode>>) {
    forall n <- before :: n in after && before[n].Keys <= after[n].Keys
  }

  lemma ExtendsTrans(a: map<TrieNode, string>, b: map<TrieNode, string>, c: map<TrieNode, string>)
    requires Extends(a, b) && Extends(b, c)
    ensures Extends(a, c)
  {
  }

  lemma GrowsTrans(a: map<TrieNode, map<char, TrieNode>>, b: map<TrieNode, map<char, TrieNode>>,
                   c: map<TrieNode, map<char, TrieNode>>)
    requires Grows(a, b) && Grows(b, c)
    ensures Grows(a, c)
  {
  }

  /** A string that starts with `path + [c]` goes on past `path` with `c`. */
  lemma BelowStep(u: string, path: string, c: char)
    ensures StartsWith(u, path + [c]) <==> Below(u, path) && u[|path|] == c
  {
    if |path| < |u| {
      assert u[..|path| + 1][..|path|] == u[..|path|] && u[..|path| + 1][|path|] == u[|path|];
      if Below(u, path) && u[|path|] == c {
        assert u[..|path| + 1] == path + [c];
      }
    }
  }

  /** Nothing goes on past a node through a child that the node does not
      have: no word, and no other node. */
  lemma NothingPastMissingChild(pathOf: map<TrieNode, string>, kids: map<TrieNode, map<char, TrieNode>>,
                                words: set<string>, depth: nat, node: TrieNode, c: char)
    requires Shape(pathOf, kids, words, depth)
    requires node in pathOf && c !in kids[node]
    ensures forall w <- words :: !StartsWith(w, pathOf[node] + [c])
    ensures forall m <- pathOf :: !StartsWith(pathOf[m], pathOf[node] + [c])
  {
    var path := pathOf[node];
    forall w: string ensures StartsWith(w, path + [c]) ==> Below(w, path) && w[|path|] == c {
      BelowStep(w, path, c);
    }
  }

  /** Giving `node` a new, childless node under a character it has no child
      for keeps the shape: nothing reaches the new node's path yet. */
  lemma AddChildKeepsShape(pathOf: map<TrieNode, string>, kids: map<TrieNode, map<char, TrieNode>>,
                           words: set<string>, depth: nat, node: TrieNode, c: char, child: TrieNode)
    requires Shape(pathOf, kids, words, depth)
    requires node in pathOf && c !in kids[node] && child !in pathOf && |pathOf[node]| < depth
    ensures pathOf[node] + [c] !in words
    ensures Shape(pathOf[child := pathOf[node] + [c]], kids[node := kids[node][c := child]][child := map[]],
                  words, depth)
  {
    var q := pathOf[node] + [c];
    NothingPastMissingChild(pathOf, kids, words, depth, node, c);
    assert StartsWith(q, q);
    AddChildKeepsPathsClosed(pathOf, kids, node, c, child);
    AddChildKeepsRest(pathOf, kids, words, node, c, child);
  }

  lemma AddChildKeepsRest(pathOf: map<TrieNode, string>, kids: map<TrieNode, map<char, TrieNode>>,
                          words: set<string>, node: TrieNode, c: char, child: TrieNode)
    requires kids.Keys == pathOf.Keys && OnePathEach(pathOf) && EdgesSpell(pathOf, kids) && WordsClosed(pathOf, kids, words)
    requires node in pathOf && c !in kids[node] && child !in pathOf
    requires forall m <- pathOf :: !StartsWith(pathOf[m], pathOf[node] + [c])
    requires forall w <- words :: !StartsWith(w, pathOf[node] + [c])
    ensures OnePathEach(pathOf[child := pathOf[node] + [c]])
    ensures EdgesSpell(pathOf[child := pathOf[node] + [c]], kids[node := kids[node][c := child]][child := map[]])
    ensures WordsClosed(pathOf[child := pathOf[node] + [c]], kids[node := kids[node][c := child]][child := map[]], words)
  {
    var q := pathOf[node] + [c];
    assert StartsWith(q, q);
    AddChildKeepsOnePathEach(pathOf, q, child);
    AddChildKeepsWordsClosed(pathOf, kids, words, node, c, child);
  }

  lemma AddChildKeepsOnePathEach(pathOf: map<TrieNode, string>, q: string, child: TrieNode)
    requires OnePathEach(pathOf) && child !in pathOf
    requires forall m <- pathOf :: pathOf[m] != q
    ensures OnePathEach(pathOf[child := q])
  {
  }

  lemma AddChildKeepsWordsClosed(pathOf: map<TrieNode, string>, kids: map<TrieNode, map<char, TrieNode>>,
                                 words: set<string>, node: TrieNode, c: char, child: TrieNode)
    requires kids.Keys == pathOf.Keys && WordsClosed(pathOf, kids, words)
    requires node in pathOf && child !in pathOf
    requires forall w <- words :: !StartsWith(w, pathOf[node] + [c])
    ensures WordsClosed(pathOf[child := pathOf[node] + [c]], kids[node := kids[node][c := child]][child := map[]], words)
  {
    var pathOf' := pathOf[child := pathOf[node] + [c]];
    var kids' := kids[node := kids[node][c := child]][child := map[]];
    forall w, n | w in words && n in pathOf' && Below(w, pathOf'[n]) ensures n in kids' && w[|pathOf'[n]|] in kids'[n] {
      if n != child {
        assert Below(w, pathOf[n]);
      }
    }
  }

  lemma AddChildKeepsPathsClosed(pathOf: map<TrieNode, string>, kids: map<TrieNode, map<char, TrieNode>>,
                                 node: TrieNode, c: char, child: TrieNode)
    requires kids.Keys == pathOf.Keys && OnePathEach(pathOf) && PathsClosed(pathOf, kids)
    requires node in pathOf && c !in kids[node] && child !in pathOf
    requires forall m <- pathOf :: !StartsWith(pathOf[m], pathOf[node] + [c])
    ensures PathsClosed(pathOf[child := pathOf[node] + [c]], kids[node := kids[node][c := child]][child := map[]])
  {
    var path := pathOf[node];
    var q := path + [c];
    var pathOf' := pathOf[child := q];
    var kids' := kids[node := kids[node][c := child]][child := map[]];
    forall m, n | m in pathOf' && n in pathOf' && Below(pathOf'[m], pathOf'[n])
      ensures n in kids' && pathOf'[m][|pathOf'[n]|] in kids'[n]
    {
      if m == child && n != child {
        BelowStep(q, pathOf[n], q[|pathOf[n]|]);
        if pathOf[n] == path {
          assert n == node;
        } else {
          assert Below(path, pathOf[n]) by {
            assert q[..|path|] == path;
            assert path[..|pathOf[n]|] == q[..|pathOf[n]|];
          }
          assert q[|pathOf[n]|] == path[|pathOf[n]|];
        }
      } else if n != child {
        assert Below(pathOf[m], pathOf[n]);
      }
    }
  }

  /** Marking the node at `w` as a word end keeps the shape. */
  lemma MarkEndKeepsShape(pathOf: map<TrieNode, string>, kids: map<TrieNode, map<char, TrieNode>>,
                          words: set<string>, depth: nat, node: TrieNode)
    requires Shape(pathOf, kids, words, depth) && node in pathOf
    ensures Shape(pathOf, kids, words + {pathOf[node]}, depth)
  {
  }

  /** Raising the depth bound keeps the shape. */
  lemma DeepenKeepsShape(pathOf: map<TrieNode, string>, kids: map<TrieNode, map<char, TrieNode>>,
                         words: set<string>, depth: nat, depth': nat)
    requires Shape(pathOf, kids, words, depth) && depth <= depth'
    ensures Shape(pathOf, kids, words, depth')
  {
  }

  class Trie {
    var root: TrieNode

    // abstract view
    ghost var Words: set<string>                          // folded forms of the inserted titles
    ghost var PathOf: map<TrieNode, string>               // the path to each node; its keys are all the nodes
    ghost var Kids: map<TrieNode, map<char, TrieNode>>    // each node's children
    ghost var Depth: nat                                  // no path is longer than this

    ghost predicate Valid()
      reads this, PathOf.Keys
    {
      && Shape(PathOf, Kids, Words, Depth)
      && root in PathOf && PathOf[root] == []
      && (forall n <- PathOf :: n.children == Kids[n] && (n.isEndOfWord <==> PathOf[n] in Words))
    }

    constructor ()
      ensures Valid() && fresh(PathOf.Keys)
      ensures Words == {} && PathOf == map[root := []]
      ensures Pruned(PathOf.Values, Words) && forall w <- Words :: IsLower(w)
    {
      root := new TrieNode();
      Words := {};
      PathOf := map[root := []];
      Kids := map[root := map[]];
      Depth := 0;
    }

    /** `insert(word)`: walk the folded word from the root, creating missing
        children, and mark the last node as the end of a word. Nothing is
        removed: every node keeps its path and its children, and gains at most
        new children and its end-of-word mark. */
    method Insert(word: string)
      requires Valid()
      modifies this, PathOf.Keys
      ensures Valid() && fresh(PathOf.Keys - old(PathOf.Keys))
      ensures Words == old(Words) + {Lower(word)}
      ensures Extends(old(PathOf), PathOf) && Grows(old(Kids), Kids)
      ensures PathOf.Values == old(PathOf.Values) + Prefixes(Lower(word), |Lower(word)|)
      ensures Pruned(old(PathOf.Values), old(Words)) ==> Pruned(PathOf.Values, Words)
      ensures (forall w <- old(Words) :: IsLower(w)) ==> forall w <- Words :: IsLower(w)
      ensures root == old(root)
    {
      var lw := Lower(word);
      var node := Walk(lw);
      MarkEnd(node);
      if forall w <- old(Words) :: IsLower(w) {
        FoldedWordsAreLower(old(Words), word);
      }
      if Pruned(old(PathOf.Values), old(Words)) {
        PrunedAfterInsert(old(PathOf.Values), old(Words), lw);
      }
    }

    /** The loop of `insert`: from the root, follow the folded word one
        character at a time, creating each missing child; end at the node
        whose path is the whole word. */
    method Walk(lw: string) returns (node: TrieNode)
      requires Valid()
      modifies this, PathOf.Keys
      ensures Valid() && Words == old(Words) && root == old(root)
      ensures node in PathOf && PathOf[node] == lw
      ensures fresh(PathOf.Keys - old(PathOf.Keys))
      ensures Extends(old(PathOf), PathOf) && Grows(old(Kids), Kids)
      ensures PathOf.Values == old(PathOf.Values) + Prefixes(lw, |lw|)
    {
      Reserve(|lw|);
      node := root;
      var i := 0;
      PrefixesNone(lw);
      while i < |lw|
        invariant 0 <= i <= |lw|
        invariant Valid() && Words == old(Words) && root == old(root) && |lw| <= Depth
        invariant node in PathOf && PathOf[node] == lw[..i]
        invariant fresh(PathOf.Keys - old(PathOf.Keys))
        invariant Extends(old(PathOf), PathOf) && Grows(old(Kids), Kids)
        invariant PathOf.Values == old(PathOf.Values) + Prefixes(lw, i)
      {
        ghost var pathOf, kids := PathOf, Kids;
        node := Descend(node, lw[i]);
        ExtendsTrans(old(PathOf), pathOf, PathOf);
        GrowsTrans(old(Kids), kids, Kids);
        PrefixStep(lw, i);
        PrefixesStep(lw, i);
        i := i + 1;
      }
      assert lw[..i] == lw;
    }

    /** Raise the ghost bound on path lengths so that a word of length `n`
        fits; nothing else changes. */
    ghost method Reserve(n: nat)
      requires Valid()
      modifies this
      ensures Valid() && n <= Depth
      ensures PathOf == old(PathOf) && Kids == old(Kids) && Words == old(Words) && root == old(root)
    {
      if Depth < n {
        DeepenKeepsShape(PathOf, Kids, Words, Depth, n);
        Depth := n;
      }
    }

    /** One step of the walk in `insert`: create the child under `c` if it
        is missing, then move to it. */
    method Descend(node: TrieNode, c: char) returns (child: TrieNode)
      requires Valid() && node in PathOf && |PathOf[node]| < Depth
      modifies this, node
      ensures Valid() && Words == old(Words) && Depth == old(Depth) && root == old(root)
      ensures child in PathOf && PathOf[child] == old(PathOf[node]) + [c]
      ensures fresh(PathOf.Keys - old(PathOf.Keys)) && PathOf.Keys <= old(PathOf.Keys) + {child}
      ensures PathOf.Values == old(PathOf.Values) + {old(PathOf[node]) + [c]}
      ensures Extends(old(PathOf), PathOf) && Grows(old(Kids), Kids)
    {
      if c !in node.children {
        ghost var pathOf := PathOf;
        AddChild(node, c);
        AddKeyValues(pathOf, node.children[c], pathOf[node] + [c]);
      }
      child := node.children[c];
    }

    /** The last statement of `insert`: the node reached now ends a word. */
    method MarkEnd(node: TrieNode)
      requires Valid() && node in PathOf
      modifies this, node
      ensures Valid() && Words == old(Words) + {old(PathOf[node])}
      ensures PathOf == old(PathOf) && Kids == old(Kids) && root == old(root)
    {
      MarkEndKeepsShape(PathOf, Kids, Words, Depth, node);
      node.isEndOfWord := true;
      Words := Words + {PathOf[node]};
    }

    /** The body of the `if` in `insert`: give `node` a new empty child
        under `c`. */
    method AddChild(node: TrieNode, c: char)
      requires Valid() && node in PathOf
      requires c !in node.children && |PathOf[node]| < Depth
      modifies this, node
      ensures Valid()
      ensures c in node.children && fresh(node.children[c])
      ensures node.children == old(node.children)[c := node.children[c]]
      ensures PathOf == old(PathOf)[node.children[c] := old(PathOf[node]) + [c]]
      ensures Words == old(Words) && Depth == old(Depth) && root == old(root)
    {
      var child := new TrieNode();
      AddChildKeepsShape(PathOf, Kids, Words, Depth, node, c, child);
      PathOf, Kids := PathOf[child := PathOf[node] + [c]], Kids[node := Kids[node][c := child]][child := map[]];
      node.children := node.children[c := child];
      forall n <- PathOf ensures n.children == Kids[n] && (n.isEndOfWord <==> PathOf[n] in Words) {
        if n != child && n != node {
          assert n in old(PathOf);
        }
      }
    }

    /** `search(prefix)`: descend along the folded prefix; give up with no
        results at the first missing child, otherwise collect the words
        below the node reached, spelled from the prefix as given. */
    method Search(prefix: string) returns (results: seq<string>)
      requires Valid()
      ensures Elems(results) == Completions(prefix, Words)
      ensures NoDuplicates(results)
      ensures Lower(prefix) in Words ==> results != [] && results[0] == prefix
    {
      var lp := Lower(prefix);
      var node := root;
      var i := 0;
      while i < |lp|
        invariant 0 <= i <= |lp|
        invariant node in PathOf && PathOf[node] == lp[..i]
      {
        var c := lp[i];
        if c !in node.children {
          NothingPastMissingChild(PathOf, Kids, Words, Depth, node, c);
          assert lp[..i] + [c] == lp[..i + 1];
          assert forall w <- Words :: StartsWith(w, lp) ==> StartsWith(w, lp[..i + 1]);
          CompletionsEmpty(prefix, Words);
          return [];
        }
        assert lp[..i] + [c] == lp[..i + 1];
        node := node.children[c];
        i := i + 1;
      }
      assert lp[..i] == lp;
      results := GetWords(node, prefix, lp);
    }

    /** `getWords(node, spelled)`: the node's own word first, then what each
        child collects, in no particular order of children. */
    method GetWords(node: TrieNode, spelled: string, ghost path: string) returns (results: seq<string>)
      requires Valid() && node in PathOf && PathOf[node] == path
      ensures Elems(results) == Matches(spelled, path, Words)
      ensures NoDuplicates(results)
      ensures path in Words ==> results != [] && results[0] == spelled
      decreases Depth - |path|
    {
      results := [];
      if node.isEndOfWord {
        results := [spelled];
      }
      MatchesViaNone(spelled, path, Words);
      var pending := node.children.Keys;
      ghost var done: set<char> := {};
      while pending != {}
        invariant pending !! done && pending + done == node.children.Keys
        invariant Elems(results) == MatchesVia(spelled, path, Words, done)
        invariant NoDuplicates(results)
        invariant forall r <- results :: r == spelled || (|r| > |spelled| && r[|spelled|] in done)
        invariant path in Words ==> results != [] && results[0] == spelled
        decreases pending
      {
        var c :| c in pending;
        var more := GetWords(node.children[c], spelled + [c], path + [c]);
        forall r <- more ensures |r| > |spelled| && r[|spelled|] == c {
          MatchesStartWith(spelled + [c], path + [c], Words, r);
          assert r[..|spelled| + 1][|spelled|] == c;
        }
        NoDuplicatesAppend(results, more);
        MatchesViaStep(spelled, path, Words, done, c);
        results := results + more;
        pending := pending - {c};
        done := done + {c};
      }
      MatchesViaAll(spelled, path, Words, done);
    }
  }
}
