# c-wire station index, modelled in Dafny

c-wire aggregates electrical consumption per station. It reads a `;`-separated
record stream and keys each record by the station id of a requested tier
(`hvb`, `hva` or `lv`). It keeps one entry per station in an AVL search tree
(`c-wire/codeC/avl.h`). Each entry holds:

- a capacity, fixed when the entry is created;
- a running consumption total.

At the end it lists the entries in ascending id order. This project models
that core and proves properties of it:

- the tree operations of `avl.h`;
- the per-record body of the read loop in `c-wire/codeC/main.c`.

The modules are:

- **`Avl`** (`avl.dfy`): the tree as a value (`Tree = Leaf | Branch`). There
  is one function per `avl.h` operation (`height`, `max`, `newNode`,
  `rightRotate`, `leftRotate`, `getBalance`, `insert`, `search`, `inorder`),
  plus `AddLoad`, the in-place `consumption += load` of `main.c` seen on the
  whole tree. The properties are lemmas:
  - in-order lines, keys and table are preserved by rotations;
  - BST order and AVL balance are preserved by `insert`;
  - heights stay correct, not stale;
  - capacity is first-write-wins;
  - `search` is correct;
  - `inorder` is ascending and complete.
- **`AvlHeap`** (`avl_heap.dfy`): the pointer structure. A `Node` class has
  `station`, `left` and `right` fields. `rightRotate`, `leftRotate` and
  `insert` relink nodes and rewrite heights in place. Each method is proved
  to turn the tree's ghost `Model` into exactly the corresponding `Avl`
  function of the old model.
- **`Records`** (`records.dfy`): the record policy of `main.c`, as
  functions:
  - field decoding with the digit sentinel;
  - tier selection;
  - the effect of one record on the station table (`Apply`).

  The `Records` lemmas connect it to the tree and prove the
  sum-of-loads-since-creation property over a whole stream.
- **`Driver`** (`driver.dfy`): the read loop on the pointer tree.
  `ProcessRecord` decodes a line into locals step by step, as `main.c`
  does. It then searches, inserts and searches again, and writes
  `consumption += load` into the node it found. `Aggregate` runs the loop
  and lists the tree in order.

Two behaviours of the code differ from what a reader might expect. The
model follows the code in both:

- **Loads before creation are dropped.** One might expect a station's
  consumption to be the sum of every positive load recorded for it. The
  code only adds a load once the entry exists. An entry is created only by
  a record with a positive capacity, so loads that arrive earlier are lost.
  `Records.ReplayTotals` states what the code does: the sum starts at the
  creating record. A station that never gets a positive capacity never
  appears at all.
- **Present-id `insert` is proved to change nothing.** One expects `insert`
  of an id already present to leave the tree as it was. The code does not
  return at once on every level: it refreshes the stored heights on the
  path back up and runs the rotation tests again. `Avl.InsertPresent`
  proves that on an AVL tree this returns the very same tree.

Some functions only compute, with no contract of their own. Their
properties are stated by the lemmas in the table below:

- `Avl.RotateRight` and `Avl.RotateLeft` (`avl.h:45-76`): `Avl.RotateRightSpec` and `Avl.RotateLeftSpec`.
- `Avl.Rebalance` (`avl.h:98-123`): `Avl.RebalanceInorder`, `Avl.RebalanceStable`, `Avl.RebalanceLeft` and `Avl.RebalanceRight`.
- `Avl.Insert` (`avl.h:87-124`): `Avl.InsertOrdered`, `Avl.InsertEntries`, `Avl.InsertPresent` and `Avl.InsertIsAvl`.
- `Avl.Search` (`avl.h:126-134`): `Avl.SearchFinds`.
- `Avl.Inorder` (`avl.h:136-142`): `Avl.InorderVisitsAll`, `Avl.OrderedIffAscending` and `Avl.InorderListsEntries`.
- `Avl.AddLoad` (`main.c:103`): `Avl.AddLoadShape` and `Avl.AddLoadEntries`.
- `Records.ApplyTree` (`main.c:94-105`): `Records.ApplyTreeSpec`.
- `Records.Replay` and `Records.Run` (`main.c:40-107`): `Records.RunStep` and `Records.ReplayTotals`.

## Model

| member | source | states |
|---|---|---|
| Avl.Max | c-wire/codeC/avl.h:24-26 | the result is at least both arguments and equal to one of them |
| Avl.NewNode | c-wire/codeC/avl.h:29-42 | a one-node AVL tree whose only key is the id, with the given capacity, consumption 0 and height 1, found by `search` |
| Avl.HeightIsDepth | c-wire/codeC/avl.h:17-21 | when the stored heights are not stale, `height` is the real depth of the tree and equals 1 + the larger child height |
| Avl.RotateRightSpec | c-wire/codeC/avl.h:45-59 | `rightRotate` keeps the in-order lines, hence keys, table and BST order; with correct heights below the moved nodes, all heights are correct afterwards |
| Avl.RotateLeftSpec | c-wire/codeC/avl.h:62-76 | `leftRotate` keeps the in-order lines, keys, table and BST order, and leaves correct heights |
| Avl.RebalanceInorder | c-wire/codeC/avl.h:98-123 | the height refresh and any of the four rotation cases keep the in-order lines, keys, table and BST order |
| Avl.RebalanceStable | c-wire/codeC/avl.h:98-123 | on a node that is already balanced with correct heights, the refresh-and-rotate step changes nothing |
| Avl.SearchFinds | c-wire/codeC/avl.h:126-134 | on a BST, `search` finds a node exactly when the id is a key; the node found carries that id and the table's line for it |
| Avl.InorderVisitsAll | c-wire/codeC/avl.h:136-142 | `inorder` emits one line per node, its ids are exactly the keys, and the table it describes has exactly those keys |
| Avl.OrderedIffAscending | c-wire/codeC/avl.h:136-142 | the tree is a BST if and only if `inorder` lists strictly ascending ids |
| Avl.InorderListsEntries | c-wire/codeC/avl.h:136-142 | on a BST, `inorder` lists the station table with one line per station in ascending id order |
| Avl.InsertOrdered | c-wire/codeC/avl.h:87-97 | `insert` maps a BST to a BST whose keys are the old keys plus the id |
| Avl.InsertPresentInorder | c-wire/codeC/avl.h:95-96 | `insert` of a present id leaves every in-order line, including that station's capacity and consumption, as it was |
| Avl.InsertPresent | c-wire/codeC/avl.h:87-124 | on an AVL tree, `insert` of a present id returns the identical tree |
| Avl.InsertEntries | c-wire/codeC/avl.h:87-124 | on a BST, `insert` adds the line (id, capacity, 0) when the id is new and otherwise leaves the table unchanged; no existing station's capacity or consumption changes |
| Avl.RebalanceLeft | c-wire/codeC/avl.h:98-123 | after the left child grew by at most one, the refreshed and rotated node is balanced with correct heights, grows by at most one, and every pointer the rotation follows exists |
| Avl.RebalanceRight | c-wire/codeC/avl.h:98-123 | the mirror image of RebalanceLeft, after the right child grew |
| Avl.InsertBalanced | c-wire/codeC/avl.h:98-123 | `insert` keeps AVL balance and correct heights, and the height grows by at most one |
| Avl.InsertRebalanceSafe | c-wire/codeC/avl.h:103-120 | on a balanced tree with correct heights, the children and grandchildren the four rotation cases dereference are never NULL |
| Avl.InsertIsAvl | c-wire/codeC/avl.h:87-124 | `insert` maps AVL trees to AVL trees, adds exactly the id to the keys, and the height becomes the old height or the old height + 1 |
| Avl.AddLoadShape | c-wire/codeC/main.c:102-104 | the in-place consumption write changes no key, no height and no link, so an AVL tree stays AVL |
| Avl.AddLoadEntries | c-wire/codeC/main.c:102-104 | on a BST, the write adds the load to the consumption of the id's line only; every other line and every capacity is unchanged |
| Avl.Credit | c-wire/codeC/main.c:103 | crediting a line keeps the table's keys, every other line and the credited line's id and capacity, and raises its consumption by exactly the load |
| AvlHeap.Node.constructor | c-wire/codeC/avl.h:29-42 | `newNode` allocates a fresh node, alone in its subtree, whose model is the one-node tree NewNode(id, capacity) |
| AvlHeap.Node.Height | c-wire/codeC/avl.h:17-21 | on a valid node, the stored height is the model's height; NULL gives 0 |
| AvlHeap.Node.GetBalance | c-wire/codeC/avl.h:79-83 | on a valid node, the balance factor is that of the model; NULL gives 0 |
| AvlHeap.Node.Refresh | c-wire/codeC/avl.h:98 | rewriting a node's height as max of the children's heights + 1 leaves the children untouched and makes the node valid with that height in its model |
| AvlHeap.Node.RightRotate | c-wire/codeC/avl.h:45-59 | relinking in place yields a valid subtree over the same nodes whose model is RotateRight of the old model |
| AvlHeap.Node.LeftRotate | c-wire/codeC/avl.h:62-76 | relinking in place yields a valid subtree over the same nodes whose model is RotateLeft of the old model |
| AvlHeap.Node.Rebalance | c-wire/codeC/avl.h:98-123 | the height refresh and rotation cases in place yield a valid subtree over the same nodes whose model is Avl.Rebalance of the old one |
| AvlHeap.Node.LeftRightCase | c-wire/codeC/avl.h:111-114 | `node->left = leftRotate(node->left)` then `rightRotate(node)` computes the left-right double rotation of the model |
| AvlHeap.Node.RightLeftCase | c-wire/codeC/avl.h:117-120 | `node->right = rightRotate(node->right)` then `leftRotate(node)` computes the right-left double rotation of the model |
| AvlHeap.Node.Insert | c-wire/codeC/avl.h:87-124 | `insert` in place returns a valid tree whose model is Avl.Insert of the old model; its nodes are the old nodes plus at most one fresh node, and a fresh node is added exactly when `search` would not find the id |
| AvlHeap.Node.InsertLeft | c-wire/codeC/avl.h:91-92 | the recursive insert into the left child, then the rebalance step, gives the model Avl.Insert prescribes, over the old nodes plus at most one fresh node (one exactly when `search` would not find the id in the left subtree) |
| AvlHeap.Node.InsertRight | c-wire/codeC/avl.h:93-94 | the recursive insert into the right child, then the rebalance step, gives the model Avl.Insert prescribes, over the old nodes plus at most one fresh node (one exactly when `search` would not find the id in the right subtree) |
| AvlHeap.Node.Search | c-wire/codeC/avl.h:126-134 | `search` returns NULL or a valid node of the tree, and its subtree is the one Avl.Search finds; it reads and changes nothing else |
| AvlHeap.Node.Inorder | c-wire/codeC/avl.h:136-142 | the lines `inorder` writes are Avl.Inorder of the model |
| Records.DigitRun | c-wire/codeC/main.c:79-87 | the longest prefix of digits `atoi`/`atoll` reads; it is non-empty exactly when the first character is a digit |
| Records.DecodeId | c-wire/codeC/main.c:79-84 | an id field decodes to -1 exactly when its first character is not a digit, and otherwise to a value of at least 0 |
| Records.DecodeAmount | c-wire/codeC/main.c:85-87 | a capacity or load decodes to a value of at least 0, and to 0 when its first character is not a digit |
| Records.DecodeDecimal | c-wire/codeC/main.c:79-87 | a decimal number followed by a newline or nothing decodes back to itself as an id and as an amount; "-" decodes as absent |
| Records.Decode | c-wire/codeC/main.c:46-87 | a line with fewer than eight tokens is skipped; otherwise each of the three tier ids is -1 exactly when its field is not numeric, and capacity and load are at least 0 (0 when absent) |
| Records.SelectId | c-wire/codeC/main.c:89-92 | the id is the `hvb`, `hva` or `lv` field for the matching station type, and -1 for any other type |
| Records.EventOf | c-wire/codeC/main.c:46-92 | a line yields a selected id of at least -1 (-1 for a skipped line) and a capacity and load of at least 0 |
| Records.Apply | c-wire/codeC/main.c:94-105 | id -1 changes nothing; only the selected id's line can change; it exists afterwards exactly when it existed or the capacity is positive; an existing line keeps its capacity and gains the positive load; a new line is (id, capacity, positive load) |
| Records.ApplyTreeSpec | c-wire/codeC/main.c:94-105 | search, insert-if-absent, search and write on an AVL tree give an AVL tree whose table is exactly Apply of the old table, and id -1 leaves the tree identical |
| Records.RunStep | c-wire/codeC/main.c:40-107 | reading one more line applies that line's event to the table |
| Records.ReplayTotals | c-wire/codeC/main.c:40-107 | over a stream, a station is in the table exactly when some record created it; its line holds the first creating record's capacity and the sum of the positive loads for it from that record on |
| Records.ReplayExample | c-wire/codeC/main.c:40-107 | loads 20 and 30 for station 10 (capacity 500), 5 for station 4 (capacity 200), and a record without a station give the table {4: (200, 5), 10: (500, 50)} |
| Driver.WriteMakesStale | c-wire/codeC/main.c:103 | writing the consumption of the node `search` found, and nothing else, leaves a well-formed tree whose ghost models on the search path lag by that write |
| Driver.Repair | c-wire/codeC/main.c:103 | updating the ghost models on the search path makes the tree valid again with model AddLoad of the old one |
| Driver.WriteConsumption | c-wire/codeC/main.c:102-104 | `existingNode->station.consumption += load` turns the tree's model into AddLoad of the old model over the same nodes |
| Driver.Accumulate | c-wire/codeC/main.c:94-105 | the search, insert, search and write on the pointer tree keep it AVL and change its model as ApplyTree and its table as Apply |
| Driver.ProcessRecord | c-wire/codeC/main.c:42-105 | decoding into locals initialised to -1 and 0, selecting the tier and accumulating change the tree's table exactly as Apply of the line's event, keeping the tree AVL |
| Driver.Aggregate | c-wire/codeC/main.c:40-107 | after all lines, the in-order listing has ascending ids, one line per station, and describes exactly the table Run computes |

## Left out

- File and argument handling (`c-wire/codeC/main.c` lines 11-37 and 108-132) is left out as I/O:
  - `fopen`/`fgets`/`fclose`;
  - the usage check and `plantId`;
  - skipping the header line.

  `Driver.Aggregate` takes the lines after the header.
- Tokenising is left out. A line is given as the list of tokens `strtok` cuts it into at `;`. This leaves out:
  - `strtok` merging adjacent separators, so an empty field shifts the fields after it;
  - the 256-byte `fgets` limit;
  - the 20- and 50-byte `strcpy` buffers.
- `atoi`/`atoll` overflow and `int`/`long long` widths are left out. Ids, capacities and consumptions are unbounded integers. `Records.Atoi` reads the leading digits without wrap-around. `consumption += load` never overflows.
- Output formatting is left out: the output file name, the header line and the `fprintf` of each line. `inorder` produces a sequence of (id, capacity, consumption) lines.
- Memory management is left out because it has no effect the model can observe:
  - `malloc` failure in `newNode` (`perror`, `exit(1)`);
  - `freeAVLTree`.
- Avl.RotateRight and Avl.RotateLeft are total on values. They return shapes without the needed child unchanged, where the C code would dereference NULL. The pointer versions require the child. `Avl.InsertRebalanceSafe` and the `RebalanceSafe` precondition of `AvlHeap.Node.Rebalance` show that every call `insert` makes has those children.
- AvlHeap.Node.Insert requires a tree with correct heights and AVL balance. Without them the C code's rotation cases can follow a NULL child. Every tree the program builds has these properties (`Avl.InsertIsAvl`).
- Driver.ProcessRecord and Driver.Accumulate require an AVL tree for the same reason.
- The station height is a natural number. The C `int` height is never negative.

## Findings

None: modelling the code found no behaviour that contradicts its evident intent.
