# Blogs-backend: title autocomplete trie and per-user listing cache

This project models the two stateful pieces of the blog backend's post
controller (`src/controllers/Post.ts`), and proves what they promise.

* **The title trie** (`TitleTrie`, in `title_trie.dfy`). Every created post's
  title is inserted into a character trie. A search for a prefix returns the
  inserted titles that extend the prefix.
  * `TrieNode` and `Trie` are classes whose fields are updated in place.
  * `insert` and the descent in `search` are `while` loops.
  * `getWords` is a recursive method whose loop visits the children in an
    unspecified order, as `for ... in` does.
  * The nodes are described by ghost state:
    * `Words` holds the folded form of every inserted title.
    * `PathOf` maps each node to the string that leads to it.
    * `Kids` is each node's child map.
    * `Depth` bounds the path lengths.
  * `Valid()` ties this ghost state to the heap. Each edge spells one more
    character. Every prefix of a word or of a path has its node. A node's flag
    is set exactly when its path is a word.
  * A separate invariant, `Pruned`, says no node is dead: every path other
    than the root's leads on to some word. The constructor establishes it
    and `Insert` keeps it.
  * What a search returns is given by the specification function
    `Completions(prefix, Words)`, a set of strings. Each one is the prefix
    as the caller typed it, followed by the rest of a folded word that
    extends the folded prefix.
* **The per-user listing cache** (`UserBlogs`, in `user_blogs.dfy`). This is
  `userBlogsHashTable`, a process-wide map from a user id to that user's
  posts, filled lazily by `getBlogsByUser`.
  * The class `BlogCache` holds the table and updates it in place.
  * The pure function `Serve` describes one request.
  * `Replay` describes a run of requests.
  * The storage query (Prisma's `findMany`) is not run. Its outcome, a list or
    a failure, is a parameter. The method reports whether the handler would
    have run the query.
* Case folding, set views of sequences and the no-duplicates predicate are in
  `Text` (`text.dfy`).

The code has no cache invalidation, and the model follows the code.
* Creating a post inserts its title into the trie, but it does not touch
  the cache.
* Nothing else removes or refreshes an entry either.
* So once a user's list is cached, that user is answered from the cache for
  the life of the process. The list is stale after the user posts again,
  and an empty list stays empty.
* `EntriesNeverChange`, `StaleAfterFill` and `EmptyListIsCached` state this.

## Model

| member | source | states |
|---|---|---|
| Text.LowerChar | src/controllers/Post.ts:19 | folding a character maps A-Z to a-z (code point + 32) and leaves every other character unchanged |
| Text.Lower | src/controllers/Post.ts:19 | `toLowerCase` keeps the length and folds position by position |
| Text.LowerIsLower | src/controllers/Post.ts:19 | what folding produces is already folded |
| Text.NoDuplicatesAppend | src/controllers/Post.ts:42-44 | concatenating two duplicate-free lists with no element in common gives a duplicate-free list |
| TitleTrie.TrieNode.constructor | src/controllers/Post.ts:9-12 | a new node has no children and no end-of-word mark |
| TitleTrie.Trie.constructor | src/controllers/Post.ts:14-15 | a new trie holds a lone root node, on the empty path, and no words. It satisfies the trie invariant, has no dead nodes, and all its words (none) are folded. |
| TitleTrie.Trie.Insert | src/controllers/Post.ts:17-26 | keeps the invariant, and the word set gains exactly the folded word. Every existing node keeps its path and all its children. The set of node paths gains exactly the prefixes of the folded word, so the only nodes created are its missing prefixes. No dead nodes before means none after, and folded words stay folded. The root is the same object. |
| TitleTrie.Trie.Walk | src/controllers/Post.ts:18-24 | ends at the node whose path is the whole folded word. The set of node paths gains exactly the word's prefixes. Existing nodes keep their paths and children, the words are unchanged, and new nodes are fresh. |
| TitleTrie.Trie.Descend | src/controllers/Post.ts:20-23 | one step of the walk. Moves to the child under the character, creating it if missing. The child's path is the parent's path plus that character. Existing nodes and children are kept, and the words are unchanged. At most that one child is new, and the set of node paths gains exactly its path. |
| TitleTrie.Trie.AddChild | src/controllers/Post.ts:20-22 | the node gains exactly one new, fresh, empty child under the character. Its path is the parent's plus the character. The invariant and the word set are kept. |
| TitleTrie.Trie.MarkEnd | src/controllers/Post.ts:25 | marking the node reached adds exactly its path to the word set, and the tree is unchanged |
| TitleTrie.Trie.Search | src/controllers/Post.ts:28-35 | the results, as a set, are exactly `Completions(prefix, Words)`. There are no duplicates. If the folded prefix is itself a word, the prefix as given comes first. |
| TitleTrie.Trie.GetWords | src/controllers/Post.ts:37-47 | the strings collected below a node are exactly the words extending its path, spelled from the given spelling. There are no duplicates. The node's own word, if any, comes first. |
| TitleTrie.CompletionSound | src/controllers/Post.ts:28-47 | every search result starts with the prefix verbatim, and the folded prefix plus the rest of the result is an inserted word |
| TitleTrie.CompletionComplete | src/controllers/Post.ts:28-47 | every inserted word extending the folded prefix is returned, spelled from the prefix as given |
| TitleTrie.CompletionsEmpty | src/controllers/Post.ts:30-31 | a search returns nothing if and only if no inserted word extends the folded prefix |
| TitleTrie.InsertedTitleFound | src/controllers/Post.ts:17-35 | after a title is inserted, searching for the title returns it exactly as spelled |
| TitleTrie.CompletionsAfterInsert | src/controllers/Post.ts:17-26 | an insertion adds to any search at most the one string spelled from the new word. Nothing disappears, and a second insertion of the same word adds nothing. |
| TitleTrie.EmptyPrefixListsAll | src/controllers/Post.ts:28-35 | the empty prefix returns every inserted (folded) word |
| TitleTrie.ResultIsInserted | src/controllers/Post.ts:28-47 | when all words are folded, a result's folded form is an inserted word, and searching for the result finds it |
| TitleTrie.FoldedWordsAreLower | src/controllers/Post.ts:19 | inserting keeps every stored word in folded form |
| TitleTrie.ThreeTitles | src/controllers/Post.ts:17-47 | after inserting "Alpha", "Apple" and "Banana", "Ap" returns exactly {"Apple"}, spelled with the capital typed, and "z" returns nothing. The folded "alpha" does not start with "ap", so it is not returned. |
| TitleTrie.MatchesStartWith | src/controllers/Post.ts:39-43 | a string collected under a spelling begins with that spelling, and is either the spelling itself or continues with one more character |
| TitleTrie.MatchesViaStep | src/controllers/Post.ts:41-44 | visiting one more child adds exactly the words continuing with that child's character |
| TitleTrie.MatchesViaAll | src/controllers/Post.ts:41-46 | once every child is visited, everything below the node has been collected |
| TitleTrie.NothingPastMissingChild | src/controllers/Post.ts:31 | when a node lacks a child under a character, no word and no node lies along that path, which justifies the early `return []` |
| TitleTrie.AddChildKeepsShape | src/controllers/Post.ts:20-22 | adding a child where none was keeps the trie invariant, and the new path is not yet a word |
| TitleTrie.MarkEndKeepsShape | src/controllers/Post.ts:25 | marking a node's path as a word keeps the trie invariant |
| TitleTrie.PrunedAfterInsert | src/controllers/Post.ts:17-26 | if every non-root node lies on the way to some word, this stays true once a word and its prefixes are added |
| TitleTrie.ChildIffContinued | src/controllers/Post.ts:9-26 | in a trie with no dead nodes, a node has a child under `c` if and only if some inserted word continues the node's path with `c` |
| UserBlogs.Serve | src/controllers/Post.ts:163-183 | the query runs exactly on a miss. The answer is the table's entry for the user. A server error happens exactly on a miss whose query failed. At most the user's key is added, and no existing entry changes. |
| UserBlogs.HitSkipsStorage | src/controllers/Post.ts:167 | on a hit, the stored list is answered, no query runs and the table is unchanged |
| UserBlogs.MissCachesFetched | src/controllers/Post.ts:167-172 | on a miss, the fetched list (even an empty one) is stored under the user and answered |
| UserBlogs.FailureKeepsTable | src/controllers/Post.ts:167-183 | a failing query leaves the table unchanged and answers a server error |
| UserBlogs.EmptyListIsCached | src/controllers/Post.ts:167 | an empty list counts as a hit, so the next request for that user runs no query and answers the empty list |
| UserBlogs.EntriesNeverChange | src/controllers/Post.ts:167-172 | over any run of requests, an entry once stored stays and never changes |
| UserBlogs.FilledUsers | src/controllers/Post.ts:167-172 | after a run of requests, a user has an entry if and only if they had one before, or one of their requests had a successful query |
| UserBlogs.StaleAfterFill | src/controllers/Post.ts:167-177 | once filled, every later request of that user is answered with the first stored list, without a query |
| UserBlogs.BlogCache.constructor | src/controllers/Post.ts:7 | the table starts empty |
| UserBlogs.BlogCache.GetBlogsByUser | src/controllers/Post.ts:163-184 | the new table, the answer and whether the query ran are exactly those of `Serve` on the old table |

`Depth`, and the ghost method `Reserve` that raises it before the walk in
`Insert`, are proof bookkeeping: they bound path lengths so that the
recursion of `GetWords` terminates. Nothing in the source corresponds to them.

## Left out

- Prisma storage calls (create, update, findMany, findUnique). The outcome of the one query inside the cache handler is a parameter of `GetBlogsByUser`.
- Zod validation, the authentication controller, the authentication middleware, routing and the server entry point. They are request plumbing around the core.
- The `page`/`limit` arithmetic and the storage-side title filter of `getAllBlogs`. They are not part of the trie or the cache.
- The caller's guard `title ? titleTrie.search(title) : []`. The model describes `search` itself, for every prefix including the empty one.
- Text.Lower: folds only the ASCII letters A-Z. JavaScript's `toLowerCase` also folds other scripts, and can change a string's length, which would change how results are spelled.
- TitleTrie.Trie.Search: the order in which children are visited is not modelled. `for ... in` enumerates integer-like keys first, then the rest in insertion order. The results are stated as a set with no duplicates, plus the fact that the prefix's own word comes first.
- TitleTrie.Trie.GetWords: the same unspecified child order as `Search`.
- Characters are Dafny `char`s, which are Unicode scalar values, and a word is walked one `char` at a time, as `for ... of` walks code points. A JavaScript string can hold a lone surrogate, which a `char` cannot; such strings are not modelled.
- Concurrency. Handlers that interleave at `await` points, and share the trie and the table, are not modelled. Each request runs to completion.
- UserBlogs.EntriesNeverChange: holds for requests handled one after another only. Two misses for the same user can both wait on the query, and both then store their list. The second store overwrites the first, possibly after a third request was already answered with the first list.
- The user id comes from the decoded token. It is modelled as an `int`. A missing id (`undefined`) is not modelled.
- Cache invalidation is not modelled because the code has none. Neither creating nor updating a post touches the cache, so no later request re-runs the query for a user already cached (see `EntriesNeverChange` and `StaleAfterFill`).
