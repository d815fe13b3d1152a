# Boggle solver: a verified model of boggle.cpp

boggle.cpp finds every dictionary word that can be spelled on a 4x4 Boggle
board. It has two parts:

- **`Dictionary`** is a 26-way prefix trie. Each node has an `is_self_word`
  flag and 26 optional children, one per letter A-Z. Letters are upper-cased
  with `toupper` before they pick a child.
- **`search_board`** is a backtracking depth-first search over the board. It
  walks the trie in step with the cells it visits. It marks each cell it
  enters in `marked` and writes the cell's letter into a shared `word`
  buffer. A 'Q' cell writes "QU" and follows the trie through 'U' as well.
  It reports each word that ends at a flagged node into a `std::set`, then
  unmarks the cell and clears the letter.

`main` runs the search from every cell of the board, sharing one zeroed
50-char buffer and one all-false mask.

The model has four modules:

- **`Letters`** (letters.dfy) models ASCII `isalpha` and `toupper` and the
  child slot `toupper(c) - 'A'`. It also defines `Derivative(W, a)`, the
  words of `W` that start with `a`, with that letter removed.
- **`Trie`** (trie.dfy) is the class `Dictionary`. Its fields are
  `isSelfWord` and a 26-slot `array<Dictionary?>`. A ghost field `Words`
  holds the words stored below the node. `Valid()` ties `Words` to the flag
  and to each child's `Words`. The trie operations are proved against these
  set semantics.
- **`Grid`** (grid.dfy) models the board, its cells, 8-adjacency and a
  cell's tile ("QU" for 'Q'). `Spell` gives the word spelled along a path,
  and `Trail` says the path is simple and adjacent. `Reach` and `Around` are
  the sets of words a search collects. ReachSound and ReachComplete tie them
  to simple paths.
- **`Search`** (search.dfy) models `search_board` as a group of methods over
  `array2<bool>` (the mask) and `array<char>` (the word buffer), which
  follow its code in order. Each method is proved equal to a recursive
  function, `Collect`. `Collect` takes the same steps on word sets, in the
  source's neighbour order, and threads the result set through the calls the
  way the source does. `FindWords` models the driver loop. It finds exactly
  the stored words that some simple adjacent path spells. Each of them has
  between 1 and 32 letters, so it fits the 50-char buffer.

Three ghost parameters carry state through the search methods:

- `U`, the free cells: `Marks(marked, U)` says the marked cells are exactly
  those outside `U`.
- `P`, the buffer prefix: `word[..len] == P`.
- `W`, the word set of the current trie node.

`add_word` and `is_word` take a pointer and a length. The model passes one
string `w` of that length. An empty `w` stands for a call whose first byte is
the terminating NUL, which is not a letter.

## Model

| member | source | states |
|---|---|---|
| Letters.Upcase | boggle.cpp:41 | A lower-case letter maps to the upper-case letter at the same place in the alphabet. An upper-case letter or a non-letter is unchanged. Being a letter is preserved. |
| Letters.Idx | boggle.cpp:56 | `toupper(c) - 'A'` of a letter is a slot in 0..25. Its letter is `Upcase(c)`, and it is the only slot with that letter. |
| Letters.UpcaseWordAlpha | boggle.cpp:53-56 | A word upper-cases to an upper-case word exactly when every character is a letter. |
| Trie.Dictionary.constructor | boggle.cpp:34-37 | A new node is valid. It stores no word, its flag is false and it owns only fresh objects. |
| Trie.Dictionary.SubDictionary | boggle.cpp:39-47 | The child for a letter, in either case, is null only when no stored word starts with that letter. A child that exists is a valid node owned by this one, and it stores exactly the remainders of the words that start with that letter. |
| Trie.Dictionary.MakeSubDictionary | boggle.cpp:56-59 | An existing child in slot `k` is returned as it is, with the footprint unchanged. A missing one is created fresh and empty. The node stays valid, and the stored words and the other slots are unchanged. |
| Trie.Dictionary.MarkSelfWord | boggle.cpp:63 | Setting the flag adds exactly the empty word to the node's words and keeps it valid. |
| Trie.Dictionary.AddWord | boggle.cpp:49-68 | Returns true exactly when the word is non-empty and all letters. In that case the stored words gain exactly its upper-cased form, and otherwise they are unchanged (including for an empty line or a first non-letter). Earlier words all stay stored, so adding a word twice changes nothing. The trie stays valid and only fresh objects are added. |
| Trie.Dictionary.AddBelow | boggle.cpp:56-67 | Once the first letter's child exists, one letter sets its flag and a longer word recurses into it. The result and the new word set are as for AddWord, and a later non-letter stores nothing. |
| Trie.Dictionary.IsWord | boggle.cpp:70-83 | True exactly when the word is non-empty and all letters and its upper-cased form is stored. A non-letter, a missing child, or a prefix that was never added gives false. |
| Trie.IsWordAnyCase | boggle.cpp:70-83 | A stored word is recognised in every mix of letter cases that upper-cases to it. |
| Grid.NeighboursShape | boggle.cpp:120-135 | A cell is never its own neighbour, being neighbours is symmetric, and a cell of the board has from 3 (a corner) to 8 neighbours, as many as the guarded calls make. |
| Grid.Tile | boggle.cpp:99-104 | A cell contributes its own letter, followed by 'U' exactly when that letter is 'Q'. |
| Grid.SpellQU | boggle.cpp:101-104 | In every word spelled on the board, each 'Q' is followed by 'U'. |
| Grid.ReachSound | boggle.cpp:99-135 | Every word a search from `c` collects is in its word set. It is spelled by a simple adjacent path of free cells that starts at `c`. |
| Grid.ReachComplete | boggle.cpp:99-135 | Every word in the word set spelled by a simple adjacent path of free cells is collected by the search from the path's first cell. |
| Grid.ReachLength | boggle.cpp:99-104 | A collected word has between 1 and twice as many letters as there are free cells. |
| Grid.AroundAllSpellable | boggle.cpp:203-209 | Searching from every cell of a fresh board collects exactly the words of the set that the board spells, each with between 1 and 32 letters. |
| Search.CollectDead | boggle.cpp:89-110 | When the trie has no child for the cell's letter, or no 'U' after a 'Q', the search adds no word. |
| Search.CollectAround | boggle.cpp:87-139 | The step-by-step search from a cell adds exactly the words that `Around` collects from it. |
| Search.CollectNeighboursAround | boggle.cpp:120-135 | The eight neighbour calls, in the source's order, add exactly what `Around` collects from the cell's neighbours. |
| Search.NeighboursInOrder | boggle.cpp:120-135 | The row above, the cells beside and the row below together make up exactly the cell's neighbours. |
| Search.SearchBoard | boggle.cpp:87-139 | The result set is the `Collect` of the cell. On return, `marked` and `word[0..len)` are as on entry and the trie is still valid. A marked cell returns at once. |
| Search.Enter | boggle.cpp:92-111 | The node reached is null only when no stored word continues with the cell's letter, or with "QU" for a 'Q'. A node that is reached stores those words' remainders and the buffer holds the prefix followed by the tile. `word[0..len)` is unchanged either way. |
| Search.EnterU | boggle.cpp:101-111 | After a 'Q', writing 'U' and following its child either yields the node storing the words that continue with 'U', with "QU" in the buffer, or finds none and writes a NUL over the 'U'. `word[0..len)` is kept either way. |
| Search.Push | boggle.cpp:99 | `word[len++] = ch` appends `ch` to the prefix. |
| Search.Pop | boggle.cpp:108 | `word[--len] = '\0'` shortens the prefix by one, writes a NUL at the freed index and leaves the rest of the prefix unchanged. |
| Search.Visit | boggle.cpp:113-138 | After the tile is written, the cell is marked and the word is recorded when the node ends one. The neighbours are searched, then the mark and the prefix are restored. The result is the neighbours' `Collect` with the cell taken. |
| Search.Restore | boggle.cpp:137-138 | Unmarking the cell and clearing the last letter restores the mask and `word[0..len)`. |
| Search.SearchNeighbours | boggle.cpp:120-135 | The eight guarded neighbour calls produce `CollectNeighbours`, and the mask and prefix are kept. |
| Search.SearchRow | boggle.cpp:120-125 | The calls into the row above (and, alike, below, lines 130-135) add the `Collect` of columns j-1, j, j+1 that are on the board. |
| Search.SearchBeside | boggle.cpp:127-128 | The calls to the left and right neighbours add their `Collect`. |
| Search.SweepStep | boggle.cpp:205-207 | One driver call from cell (i, j) extends the words found to those of every cell up to and including (i, j). |
| Search.SweepRow | boggle.cpp:205-208 | The inner loop over j adds the words of row i. The mask stays all false. |
| Search.SweepRows | boggle.cpp:203-209 | The outer loop over i yields the words collected from all 16 cells. The mask stays all false. |
| Search.SpelledIsWord | boggle.cpp:70-83 | For a word spelled on the board, `is_word` holds exactly when the word is stored. |
| Search.SweepEnd | boggle.cpp:203-209 | What the sweep collects is exactly the stored words spelled on the board, equivalently those `is_word` accepts; none is longer than 32 letters. |
| Search.FindWords | boggle.cpp:199-209 | With a zeroed 50-char buffer and a clear mask, `found_words` ends up as exactly the words that are stored (or, equivalently, accepted by `is_word`) and spelled by a simple adjacent path on the board. Each has between 1 and 32 letters, and the trie is still valid. |

## Left out

- Reading the word list and the board from files, with their error messages (boggle.cpp:143-197), and printing the result (boggle.cpp:211-214). These are I/O. `FindWords` takes a built trie and a 4x4 board.
- `std::unique_ptr` ownership and destruction (boggle.cpp:29, 59). These are modelled as plain references with a ghost `Repr` footprint.
- `isalpha` and `toupper` are modelled for ASCII in the "C" locale only.
- The board must hold upper-case letters A-Z. boggle.cpp does not check its characters: a non-letter would index the trie out of range at line 41, and a lower-case 'q' would miss the QU rule at line 101.
- The board is a value of type `seq<seq<char>>` rather than an array, because the search never writes it.
- The buffer bytes past `len` are not modelled, including the 'Q' left behind when the QU lookup fails (line 108). `emplace` reads only `len` bytes.
- The result is a mathematical set. `std::set`'s ordering is not modelled. The set is passed in and returned rather than updated through a reference. This is equivalent, because the search only ever inserts into it.
- Search.SearchBoard: one source function is split across `SearchBoard`, `Enter`, `EnterU`, `Visit`, `Restore`, `SearchNeighbours`, `SearchRow` and `SearchBeside`, and `add_word` across `AddWord`, `MakeSubDictionary`, `MarkSelfWord` and `AddBelow`. The steps and their order are the source's.
- Trie.Dictionary.SubDictionary: the `const` and non-`const` overloads of `get_sub_dictionary` are one function, because both only read.
- Trie.Dictionary.AddWord: calls whose `length` differs from the string's length are not modelled. In boggle.cpp the length is always `line.size()`.
