# Verified model of the algorithm exercises

The repository is a study collection: dozens of small, independent
algorithm exercises in TypeScript (one in Python), each with its test
tables or `Expected:` comments beside it, plus a mock audit-log service
from a take-home project. This project models each implemented exercise
as its own Dafny module and proves what the exercise promises.

- **Binary trees.** Depth (recursive, one-liner, BFS and explicit stack),
  node count, node sum and minimum depth; preorder (recursive and stack);
  same-tree, subtree, balanced, BST validation, diameter, visible nodes and
  path-sum counting, all over the `Trees.Tree` datatype. The level-order
  `buildTree` shared by five study guides lives in `LevelOrder`; the
  `"x"`-marker deserialiser with its token iterator in `TreeTraversal`.
  The three in-place rewrites (`invertTree`, `flatten`, `insertIntoBST`)
  work on the heap nodes of `HeapTrees.Node`, tied to a value tree by a
  ghost shape.
- **Graphs and grids.** Adjacency lists (`GraphBuild`), depth-first visit
  order, `hasPath` and component counting (`GraphDfs`), breadth-first
  distances and shortest paths on maps and grids (`GraphBfs`), island
  marking and counting with a `visited` array (`GridDfs`) and by sinking
  the grid in place (`NumIslands`). Reachability and grid moves are shared
  in `Graphs` and `Grids`.
- **Stacks and strings.** `decodeString`, `removeKdigits`, the three
  longest-valid-parentheses algorithms (proved to agree), phone-keypad
  combinations and anagram grouping.
- **Sliding windows, two pointers, binary search.** Four longest-substring
  versions against one specification (`Substrings`), minimum window
  substring, the maximum sum of distinct length-k windows, hash and
  two-pointer two-sum, leftmost binary search and first bad version.
- **Arithmetic.** The unique-paths table (proved to be a binomial
  coefficient) and little-endian digit-list addition with carry.
- **Business rules.** Expense auto-approval and the department roll-up,
  the audit-log store (append, per-patient query, filtered newest-first
  query) and the trimmed-string validators.

Loops in the source are `while`/`for` loops here, proved against
specification functions; in-place array and node updates stay in place
(`array`, `array2`, `class`). Source paths below are relative to the
repository root.

## Model

| member | source | states |
|---|---|---|
| MaxDepth.MaxDepthIsHeight | ysk/study-guides/104-maximum-depth-of-binary-tree/test-cases.ts:21-31 | the recursive depth is the number of nodes on a longest path down from the root, 0 for the empty tree |
| MaxDepth.OneLinerAgrees | ysk/study-guides/104-maximum-depth-of-binary-tree/test-cases.ts:34-38 | the one-line version returns the recursive depth on every tree |
| MaxDepth.MaxDepthBFS | ysk/study-guides/104-maximum-depth-of-binary-tree/test-cases.ts:46-68 | counting levels, with each level's size taken before it is drained, gives the recursive depth |
| MaxDepth.MaxDepthDFS | ysk/study-guides/104-maximum-depth-of-binary-tree/test-cases.ts:76-92 | the explicit stack, pushing children at depth + 1 and keeping the largest depth popped, gives the recursive depth |
| MaxDepth.CountIsValues | ysk/study-guides/104-maximum-depth-of-binary-tree/test-cases.ts:361-364 | countNodes counts exactly one per stored value |
| MaxDepth.DepthAtMostCount | ysk/study-guides/104-maximum-depth-of-binary-tree/test-cases.ts:361-364 | a tree has at least as many nodes as its depth |
| MaxDepth.CountBelowPow2 | ysk/study-guides/104-maximum-depth-of-binary-tree/test-cases.ts:361-364 | a tree of depth d has fewer than 2^d nodes |
| MaxDepth.SumNodesBounds | ysk/study-guides/104-maximum-depth-of-binary-tree/test-cases.ts:367-370 | with every value in [lo, hi], sumNodes lies between count * lo and count * hi |
| MaxDepth.MinDepthIsNearestLeaf | ysk/study-guides/104-maximum-depth-of-binary-tree/test-cases.ts:373-378 | minDepth is the number of nodes on a shortest path to a leaf; a node with one missing child is not a leaf |
| MaxDepth.TableCases | ysk/study-guides/104-maximum-depth-of-binary-tree/test-cases.ts:166-214 | the table's depths for [], [1], [1,null,2], [3,9,20,null,null,15,7] and [1,2,null,3,null,4] |
| MaxDepth.VariationCases | ysk/study-guides/104-maximum-depth-of-binary-tree/test-cases.ts:358-384 | on [1,2,3,4,5,6,7]: seven nodes, sum 28, nearest leaf at depth 3 |
| LevelOrder.BuildTree | ysk/study-guides/104-maximum-depth-of-binary-tree/test-cases.ts:99-125 | the queue loop builds the array's tree: empty for [] or a null first slot, and the k-th present slot takes its children from slots 2k+1 and 2k+2, null slots skipped |
| Preorder.Recurse | ysk/study-guides/144-binary-tree-preorder-traversal/test-cases.ts:43-49 | recurse appends the node, then its whole left subtree, then its right subtree, in preorder |
| Preorder.PreorderTraversalRecursive | ysk/study-guides/144-binary-tree-preorder-traversal/test-cases.ts:40-54 | the recursive version returns the preorder of the tree, [] for the empty tree |
| Preorder.PreorderTraversalIterative | ysk/study-guides/144-binary-tree-preorder-traversal/test-cases.ts:62-78 | pushing right then left and skipping null pops yields the same preorder as the recursive version |
| Preorder.TableCases | ysk/study-guides/144-binary-tree-preorder-traversal/test-cases.ts:120-165 | the table's outputs for [], [1,null,2,3], [1,2,3,4,5,6,7] and [1,2,3,4,5] |
| InvertTree.Mirror | ysk/study-guides/226-invert-binary-tree/test-cases.ts:39-50 | the mirror image keeps the number of nodes |
| InvertTree.MirrorAt | ysk/study-guides/226-invert-binary-tree/test-cases.ts:42-47 | what sits at an address of the inverted tree is the mirror of what sits at the address with every turn flipped |
| InvertTree.MirrorInvolution | ysk/study-guides/226-invert-binary-tree/test-cases.ts:42-47 | inverting twice gives back the original tree |
| InvertTree.MirrorInOrder | ysk/study-guides/226-invert-binary-tree/test-cases.ts:42-47 | the inverted tree lists its inorder backwards |
| InvertTree.MirrorPreOrder | ysk/study-guides/226-invert-binary-tree/test-cases.ts:42-47 | the preorder of the inverted tree is the postorder of the original read backwards |
| InvertTree.InvertTreeInPlace | ysk/study-guides/226-invert-binary-tree/test-cases.ts:39-50 | swapping the children and recursing returns the same root; the links now form the mirrored skeleton, whose values are the mirror of the old tree; no node is created or dropped and no value changes |
| InvertTree.InvertTwice | ysk/study-guides/226-invert-binary-tree/test-cases.ts:39-50 | calling invertTree twice restores every link and value |
| InvertTree.TreeToArray | ysk/study-guides/226-invert-binary-tree/test-cases.ts:83-107 | the level-order array with null placeholders rebuilds the tree under buildTree, lists each node once and, after trimming, never ends in null |
| InvertTree.TrimNone | ysk/study-guides/226-invert-binary-tree/test-cases.ts:101-104 | dropping a trailing null does not change the tree the array describes |
| InvertTree.FullTreeExample | ysk/study-guides/226-invert-binary-tree/test-cases.ts:145-149 | [4,2,7,1,3,6,9] inverts to [4,7,2,9,6,3,1] |
| InvertTree.UnbalancedExample | ysk/study-guides/226-invert-binary-tree/test-cases.ts:165-169 | [1,2,3,4,5] inverts to [1,3,2,null,null,5,4] |
| InvertTree.SymmetricExample | ysk/study-guides/226-invert-binary-tree/test-cases.ts:160-164 | the symmetric tree [1,2,2,3,4,4,3] is its own mirror |
| SameTree.IsSameTree | ysk/study-guides/100-same-tree/test-cases.ts:42-48 | the comparison answers true exactly when the two trees are equal: same shape and same values everywhere |
| SameTree.SameTreeIsEquivalence | ysk/study-guides/100-same-tree/test-cases.ts:42-48 | the comparison is reflexive and symmetric, and an empty tree never matches a non-empty one |
| SameTree.SmallCases | ysk/study-guides/100-same-tree/test-cases.ts:91-133 | both empty are the same; [1] vs [], [1,2] vs [1,null,2] and [1,2,1] vs [1,1,2] are not |
| SameTree.LeafCase | ysk/study-guides/100-same-tree/test-cases.ts:140-145 | [1,2,3,4,5] and [1,2,3,4,99] differ only in the last leaf and are not the same |
| Flatten.Vals | ysk/study-guides/114-flatten-binary-tree-to-linked-list/test-cases.ts:135-151 | one value per chain node, in order |
| Flatten.ValsPreNodes | ysk/study-guides/114-flatten-binary-tree-to-linked-list/test-cases.ts:10-14 | the nodes of a tree in preorder hold the preorder of its values |
| Flatten.Rewire | ysk/study-guides/114-flatten-binary-tree-to-linked-list/test-cases.ts:70-86 | with a non-empty left part three links change (the left tail takes node.right, node.right takes node.left, node.left becomes null), and node, left part and right part form one right-only chain |
| Flatten.Dfs | ysk/study-guides/114-flatten-binary-tree-to-linked-list/test-cases.ts:49-90 | dfs turns the subtree into a right-only chain of its nodes in preorder and returns its last node: the right tail, else the left tail, else the node |
| Flatten.FlattenTree | ysk/study-guides/114-flatten-binary-tree-to-linked-list/test-cases.ts:47-93 | after flatten, following right from the root visits the old preorder, every left link is null, and no node is created or dropped and no value changes |
| Flatten.FlattenedToArray | ysk/study-guides/114-flatten-binary-tree-to-linked-list/test-cases.ts:135-151 | following right collects the chain's values in order, and the left-child error is reported exactly when some visited node has a left child |
| Flatten.TableCases | ysk/study-guides/114-flatten-binary-tree-to-linked-list/test-cases.ts:184-198 | [1,2,3] reads back as 1, 2, 3, [1,2,5,3,4,null,6] as 1 to 6, and the left-skewed [1,2,null,3,null,4] as 1 to 4 |
| Diameter.WidestIsLargestThrough | ysk/study-guides/543-diameter-of-binary-tree/test-cases.ts:23-25 | the diameter (largest left+right height over all nodes) is at least the path through every node and equals the path through some node of a non-empty tree |
| Diameter.DiameterScan.constructor | ysk/study-guides/543-diameter-of-binary-tree/test-cases.ts:15 | the running maximum starts at 0 |
| Diameter.DiameterScan.Height | ysk/study-guides/543-diameter-of-binary-tree/test-cases.ts:17-29 | height returns the tree's depth and raises maxDiameter to the larger of its old value and the widest path in the subtree |
| Diameter.DiameterOfBinaryTree | ysk/study-guides/543-diameter-of-binary-tree/test-cases.ts:14-33 | the answer is `Widest(root)`: over all nodes, the largest sum of the left and the right subtree heights (the longest path that bends at that node, in edges); it is never negative |
| Diameter.TableCases | ysk/study-guides/543-diameter-of-binary-tree/test-cases.ts:35-115 | the seven test trees have diameters 3, 0, 0, 2, 4, 1 and 4, including the case whose longest path avoids the root |
| ValidateBst.ValidateMeansBst | ysk/leetcode/98.validate-binary-search-tree.ts:24-38 | validate(node, min, max) accepts exactly the trees that are search trees (strictly smaller left, strictly larger right, at every depth) with all values strictly between min and max |
| ValidateBst.IsValidBst | ysk/leetcode/98.validate-binary-search-tree.ts:16-41 | isValidBST is true exactly for strict binary search trees, with no bound on the root |
| ValidateBst.SmallTrees | ysk/leetcode/98.validate-binary-search-tree.ts:81-85 | the empty tree and every single node are valid |
| ValidateBst.ValidCases | ysk/leetcode/98.validate-binary-search-tree.ts:46-51 | [2,1,3] and [2147483647] are valid |
| ValidateBst.InvalidCases | ysk/leetcode/98.validate-binary-search-tree.ts:53-92 | [5,1,4,null,null,3,6], [5,4,6,null,null,3,7] (a violation two levels down) and the duplicate [1,1] are not valid |
| Balanced.Dfs | ysk/leetcode/110.balanced-binary-tree.ts:18-28 | dfs returns a height exactly when every node's child heights differ by at most one, and then the height is the tree's depth |
| Balanced.IsBalanced | ysk/leetcode/110.balanced-binary-tree.ts:17-31 | isBalanced is true exactly for height-balanced trees |
| Balanced.TableCases | ysk/leetcode/110.balanced-binary-tree.ts:36-81 | [3,9,20,null,null,15,7], the empty tree and a single node are balanced (heights 3, 0, 1); [1,2,2,3,3,null,null,4,4] and the zig-zag 1-2-3 are not |
| Subtree.IsSubtree | ysk/leetcode/572.subtree-of-another-tree.ts:31-42 | as written, isSubtree is true exactly when subRoot equals the subtree hanging at some node of root; an empty root gives false |
| Subtree.SubtreeOfItself | ysk/leetcode/572.subtree-of-another-tree.ts:35-36 | a non-empty tree contains itself, but the empty tree is not reported inside the empty tree |
| Subtree.IsSubtreeOrEmpty | ysk/leetcode/572.subtree-of-another-tree.ts:31-42 | corrected: true exactly when subRoot sits at some position of root, where the empty tree sits below every leaf |
| Subtree.CorrectionOnlyAffectsEmpty | ysk/leetcode/572.subtree-of-another-tree.ts:35-41 | for a non-empty subRoot the corrected and the written search agree |
| Subtree.EmptyPairDiffers | ysk/leetcode/572.subtree-of-another-tree.ts:78-80 | on (null, null) the written search gives false while the test expects true, which the corrected search gives |
| Subtree.TableCases | ysk/leetcode/572.subtree-of-another-tree.ts:53-84 | [4,1,2] is inside [3,4,5,1,2], not inside [3,4,5,1,2,null,null,0], and [1] is inside [1] |
| InsertBst.BstInsert | ysk/leetcode/701.insert-into-a-binary-search-tree.ts:13-21 | insertion as a value adds exactly one node |
| InsertBst.BstInsertInOrder | ysk/leetcode/701.insert-into-a-binary-search-tree.ts:13-21 | in a search tree, the new inorder is the old inorder with val placed before the first value not smaller than it |
| InsertBst.BstInsertValues | ysk/leetcode/701.insert-into-a-binary-search-tree.ts:13-21 | the values afterwards are the old values plus val |
| InsertBst.BstInsertSorted | ysk/leetcode/701.insert-into-a-binary-search-tree.ts:7-11 | a search tree stays a search tree after the insertion |
| InsertBst.GraftNodes | ysk/leetcode/701.insert-into-a-binary-search-tree.ts:13-18 | exactly one new node joins the node set and the links stay a tree |
| InsertBst.AbsGraft | ysk/leetcode/701.insert-into-a-binary-search-tree.ts:13-21 | the linked tree after the grafting reads back as the value-level insertion |
| InsertBst.InsertIntoBST | ysk/leetcode/701.insert-into-a-binary-search-tree.ts:6-22 | an empty root gives a fresh node holding val; otherwise the same root is returned, the walk goes right on val > node.val and left otherwise, and the fresh node is linked in as the value-level insertion says |
| InsertBst.FirstCase | ysk/leetcode/701.insert-into-a-binary-search-tree.ts:42-48 | inserting 5 into [4,2,7,1,3] gives inorder [1,2,3,4,5,7] |
| InsertBst.SecondCase | ysk/leetcode/701.insert-into-a-binary-search-tree.ts:50-56 | inserting 25 into [40,20,60,10,30,50,70] gives inorder [10,20,25,30,40,50,60,70] |
| VisibleNodes.CountVisibleNodes | questions/visible-tree-nodes.ts:57-81 | the count never exceeds the number of nodes in the subtree |
| VisibleNodes.VisibleBelow | questions/visible-tree-nodes.ts:70-78 | below a node, visibility is judged against maxSoFar raised to the node's value when the node is visible |
| VisibleNodes.CountsVisibleAddresses | questions/visible-tree-nodes.ts:1-8 | the count is the number of nodes whose value is at least the initial bound and at least every value on the path above them |
| VisibleNodes.RootVisible | questions/visible-tree-nodes.ts:17 | from -Infinity the root is always visible, so a non-empty tree counts at least 1 |
| VisibleNodes.ExampleTrees | questions/visible-tree-nodes.ts:87-144 | the example tree 3(1(3),4(1,5)) has 4 visible nodes and 5(4(3),8(7,9)) has 3 |
| VisibleNodes.EdgeTrees | questions/visible-tree-nodes.ts:146-171 | an all-ascending 5-node tree shows 5, a single node 1 and the empty tree 0 |
| PathSum.CountPathSum | questions/path-sum-count.ts:55-91 | the count never exceeds the number of nodes in the subtree |
| PathSum.HitBelow | questions/path-sum-count.ts:73-87 | below a node, a root-to-leaf match is judged with the node's value added to the running sum |
| PathSum.CountInNode | questions/path-sum-count.ts:77-90 | a node contributes 1 when it is a leaf whose running sum reaches the target, then the matches of each subtree |
| PathSum.CountsMatchingLeaves | questions/path-sum-count.ts:1-5 | the count is the number of root-to-leaf paths whose total, added to currentSum, equals target |
| PathSum.ExampleTree | questions/path-sum-count.ts:97-144 | on 3(2(1,1),4) target 7 has one path, 6 has two and 10 none |
| PathSum.EdgeTrees | questions/path-sum-count.ts:146-159 | a single node 5 with target 5 gives 1; the empty tree gives 0 |
| TreeTraversal.TraversalsLogEveryNode | questions/tree-style-problems/tree-traversal.ts:13-35 | each of the in-, pre- and post-order traversals logs every node exactly once, so the three logs have the tree's size and are permutations of one another |
| TreeTraversal.TokenIterator.constructor | questions/tree-style-problems/tree-traversal.ts:39-40 | the token iterator starts at the first token |
| TreeTraversal.TokenIterator.Next | questions/tree-style-problems/tree-traversal.ts:40 | next() returns the current token and advances, or returns undefined and stays put once the tokens are exhausted |
| TreeTraversal.Decode | questions/tree-style-problems/tree-traversal.ts:39-45 | a successful decode consumes at least one token and stays inside the input |
| TreeTraversal.BuildTree | questions/tree-style-problems/tree-traversal.ts:39-45 | buildTree consumes tokens from the iterator exactly as the decoder says, building left then right then the node holding f(token), and null on "x" |
| TreeTraversal.DecodePreOrder | questions/tree-style-problems/tree-traversal.ts:39-45 | the preorder of a decoded tree is the consumed tokens other than "x", mapped by f, in input order |
| TreeTraversal.Serialize | questions/tree-style-problems/tree-traversal.ts:37-38 | the preorder encoding with "x" for each absent child has 2 * size + 1 tokens |
| TreeTraversal.DecodeSerialize | questions/tree-style-problems/tree-traversal.ts:37-45 | decoding the encoding of a tree rebuilds it with values mapped by f and consumes exactly its tokens |
| TreeTraversal.SampleDecode | questions/tree-style-problems/tree-traversal.ts:37-45 | "1 2 x x 3 x x" decodes to root 1 with leaves 2 and 3, consuming all seven tokens |
| Expenses.Check | questions/vanta-style-problems/easy-expense-reimbursement.ts:14-27 | corrected: approved exactly under the category's strict limit with its condition (domestic travel under 500, technology under 1000 with manager pre-approval, meals under 75, office supplies under 200), with that rule's own reason; everything else goes to review |
| Expenses.CheckAsWritten | questions/vanta-style-problems/easy-expense-reimbursement.ts:46-96 | as written: approved exactly under the category's strict limit, domestic required only for travel; technology approvals carry the travel reason and office-supplies approvals the meal reason |
| Expenses.ApprovalIgnored | questions/vanta-style-problems/easy-expense-reimbursement.ts:66-71 | a 900 technology expense without manager approval is approved as written but not by the policy |
| Expenses.AsWrittenAgrees | questions/vanta-style-problems/easy-expense-reimbursement.ts:55-90 | the written and the corrected check decide the same except on technology under 1000 without manager approval |
| Expenses.PartOneSamples | questions/vanta-style-problems/easy-expense-reimbursement.ts:99-144 | the five test expenses: meals 50, domestic travel 450 and approved technology 900 and office supplies 150 are approved, foreign travel 450 is not; meals at exactly 75 is not |
| Expenses.AddExpenses | questions/vanta-style-problems/easy-expense-reimbursement.ts:189-197 | for any eligibility check passed in, the inner loop adds each amount that check approves to the department's entry, creating the entry with the first one; the source passes `CheckAsWritten` |
| Expenses.OwnPhase | questions/vanta-style-problems/easy-expense-reimbursement.ts:188-198 | for any eligibility check, the first phase leaves the department's entry at the sum of its own expenses that check approves, present exactly when one is approved |
| Expenses.ExpectedOwn | questions/vanta-style-problems/easy-expense-reimbursement.ts:182-208 | for any eligibility check, in the roll-up a department has an entry exactly when one of its own expenses is approved, and the entry is everything approved in it and below it |
| Expenses.MergeSub | questions/vanta-style-problems/easy-expense-reimbursement.ts:200-205 | one subdepartment, under the same eligibility check: its roll-up is computed, its total added to the department's entry, and its entries merged in |
| Expenses.Calculate | questions/vanta-style-problems/easy-expense-reimbursement.ts:182-208 | calculateDepartmentExpenses, for any eligibility check and so for the source's `CheckAsWritten` (line 190), has the department's entry exactly when its own staff have an expense that check approves, and (with distinct names) returns every department's approved total, subdepartments included |
| Expenses.SampleTotals | questions/vanta-style-problems/easy-expense-reimbursement.ts:294-299 | under the check as written: Design 60, Frontend 210, Engineering 560 (the 1200 laptop is over the limit) |
| Expenses.Sample | questions/vanta-style-problems/easy-expense-reimbursement.ts:211-299 | with the check as written, the example hierarchy rolls up to Engineering 560, Frontend 210, Design 60 |
| Expenses.SampleExpected | questions/vanta-style-problems/easy-expense-reimbursement.ts:211-299 | under the check as written, the recursive roll-up of the example is Engineering 560, Frontend 210, Design 60 |
| Expenses.UnapprovedLaptop | questions/vanta-style-problems/easy-expense-reimbursement.ts:66-71 | a department whose one employee filed a 900 technology expense without manager approval rolls up to D: 900 with the check as written, and to no entry with the corrected check |
| GraphBuild.EmptyLists | ysk/fundamentals/graph-fundamentals/level-1-representing-a-graph.ts:18-22 | the first loop gives every label 0..n-1 an empty list, the start of both the directed and the undirected build |
| GraphBuild.BuildDirected | ysk/fundamentals/graph-fundamentals/level-1-representing-a-graph.ts:17-30 | buildDirected returns the map whose list for each label holds the targets of the edges leaving it, in edge order |
| GraphBuild.BuildUndirected | ysk/fundamentals/graph-fundamentals/level-1-representing-a-graph.ts:54-65 | buildUndirected returns the map whose list for each label holds the other end of every edge touching it, from's push before to's |
| GraphBuild.DirectedStep | ysk/fundamentals/graph-fundamentals/level-1-representing-a-graph.ts:24-26 | one more edge appends its target to its source's list and changes nothing else |
| GraphBuild.UndirectedStep | ysk/fundamentals/graph-fundamentals/level-1-representing-a-graph.ts:60-63 | one more undirected edge pushes to onto from's list, then from onto to's |
| GraphBuild.DirectedEdges | ysk/fundamentals/graph-fundamentals/level-1-representing-a-graph.ts:89-98 | in the directed build hasEdge(a, b) holds exactly when [a, b] was listed, so edges are one-way |
| GraphBuild.UndirectedEdges | ysk/fundamentals/graph-fundamentals/level-1-representing-a-graph.ts:54-65 | in the undirected build hasEdge(a, b) holds exactly when [a, b] or [b, a] was listed, and the relation is symmetric |
| GraphBuild.DirectedExample | ysk/fundamentals/graph-fundamentals/level-1-representing-a-graph.ts:32-42 | the 4-node example gives 0:[1,3], 1:[2], 2:[], 3:[]; 0→1 is an edge, 1→0, 0→2 and 2→0 are not |
| GraphBuild.UndirectedExample | ysk/fundamentals/graph-fundamentals/level-1-representing-a-graph.ts:67-76 | the same edges undirected give 0:[1,3], 1:[0,2], 2:[1], 3:[0] |
| GraphDfs.DfsFrom | ysk/fundamentals/graph-fundamentals/level-2-dfs.ts:22-29 | the order dfs marks nodes in: an unvisited node is appended and its neighbours are searched left to right; the result extends the visited list without repeats and holds the node |
| GraphDfs.DfsAll | ysk/fundamentals/graph-fundamentals/level-2-dfs.ts:26-28 | the neighbour loop searches each listed neighbour in turn; every one of them ends up visited |
| GraphDfs.DfsClosed | ysk/fundamentals/graph-fundamentals/level-2-dfs.ts:22-29 | after a search every marked node outside the searches still running has its neighbours marked, and everything added is reachable from the node |
| GraphDfs.Visit | ysk/fundamentals/graph-fundamentals/level-2-dfs.ts:22-29 | dfs returns exactly the list DfsFrom gives: it appends an unvisited node, then its unvisited reachable nodes, each once; a visited node changes nothing; everything added is reachable from the node |
| GraphDfs.DfsOrderOf | ysk/fundamentals/graph-fundamentals/level-2-dfs.ts:19-34 | the first-visit order from start, which begins with start |
| GraphDfs.DfsVisits | ysk/fundamentals/graph-fundamentals/level-2-dfs.ts:9-10 | the first-visit order starts with start and lists every node reachable from it exactly once and nothing else |
| GraphDfs.DfsOrder | ysk/fundamentals/graph-fundamentals/level-2-dfs.ts:19-34 | dfsOrder returns the first-visit order with neighbours taken left to right (DfsOrderOf), which starts with start and lists every reachable node exactly once and nothing else |
| GraphDfs.SinkOrder | ysk/fundamentals/graph-fundamentals/level-2-dfs.ts:45-46 | started at a node without neighbours the order is that node alone |
| GraphDfs.ConnectedBranches | ysk/fundamentals/graph-fundamentals/level-2-dfs.ts:37-42 | on the example graph, from 1 the search marks 1 then 2, and 3 comes after them |
| GraphDfs.ConnectedFromRoot | ysk/fundamentals/graph-fundamentals/level-2-dfs.ts:44 | dfsOrder on the example graph from 0 is exactly [0, 1, 2, 3] |
| GraphDfs.ConnectedDfs | ysk/fundamentals/graph-fundamentals/level-2-dfs.ts:44-46 | the three dfsOrder tests: [0, 1, 2, 3] from 0, [2] from 2 and [3] from 3 |
| GraphDfs.ConnectedOrders | ysk/fundamentals/graph-fundamentals/level-2-dfs.ts:37-46 | on the example graph, any list that starts at 0 and lists each reachable node once holds exactly 0..3; from the leaves 2 and 3 it is the leaf alone |
| GraphDfs.Search | ysk/fundamentals/graph-fundamentals/level-2-dfs.ts:66-75 | the inner dfs reports true only when target is reachable from the node; on false, target stays unmarked and the node is marked |
| GraphDfs.HasPath | ysk/fundamentals/graph-fundamentals/level-2-dfs.ts:59-78 | hasPath is true exactly when target is reachable from start, start itself included |
| GraphDfs.SplitPaths | ysk/fundamentals/graph-fundamentals/level-2-dfs.ts:81-93 | on the split graph 0 reaches 1 and itself, not 3; the isolated 2 reaches itself but not 0 |
| GraphDfs.GuardedStep | ysk/fundamentals/graph-fundamentals/level-2-dfs.ts:112-115 | the optional push onto a missing key does nothing; for labels in range the lists are those of the undirected build |
| GraphDfs.ComponentAdjacency | ysk/fundamentals/graph-fundamentals/level-2-dfs.ts:107-115 | countComponents' adjacency is the undirected build over 0..n-1 |
| GraphDfs.CountStep | ysk/fundamentals/graph-fundamentals/level-2-dfs.ts:129-134 | one pass of the outer loop: a visited node changes nothing, an unvisited one adds a group and its search, keeping the visited list equal to what lower-numbered nodes reach and the count equal to the leaders so far |
| GraphDfs.CountComponents | ysk/fundamentals/graph-fundamentals/level-2-dfs.ts:106-137 | countComponents returns the number of nodes 0..n-1 that no lower-numbered node reaches, i.e. that open a new group |
| GraphDfs.LeaderOfGroup | ysk/fundamentals/graph-fundamentals/level-2-dfs.ts:129-134 | every node is reached by a group opener numbered no higher than itself |
| GraphDfs.ReachBack | ysk/fundamentals/graph-fundamentals/level-2-dfs.ts:112-115 | between labels 0..n-1, reachability over the undirected adjacency is symmetric |
| GraphDfs.OneLeaderPerGroup | ysk/fundamentals/graph-fundamentals/level-2-dfs.ts:129-134 | each node 0..n-1 is reached by exactly one group opener, so the count is the number of connected groups |
| GraphDfs.NoEdges | ysk/fundamentals/graph-fundamentals/level-2-dfs.ts:166-167 | with no edges every node is its own group: the count is n |
| GraphDfs.ChainIsOneGroup | ysk/fundamentals/graph-fundamentals/level-2-dfs.ts:157-165 | the chain 0-1-2-3 is one group |
| GraphDfs.ThreeGroupsReach | ysk/fundamentals/graph-fundamentals/level-2-dfs.ts:140-147 | in that example 0 reaches 1 and 2, nothing below 3 reaches 3, and nothing below 4 reaches 4 |
| GraphDfs.ThreeGroups | ysk/fundamentals/graph-fundamentals/level-2-dfs.ts:140-147 | n = 5 with edges 0-1 and 1-2 gives the three groups {0,1,2}, {3} and {4} |
| GraphBfs.DistanceMapUnique | ysk/fundamentals/graph-fundamentals/level-3-bfs.ts:9-11 | only one map labels exactly the reachable nodes with their distances |
| GraphBfs.LabelsAreDistances | ysk/fundamentals/graph-fundamentals/level-3-bfs.ts:40-41 | labels that are path lengths, with start at 0 and every edge stepping at most one label up, are exactly the distances on exactly the reachable nodes |
| GraphBfs.Bfs | ysk/fundamentals/graph-fundamentals/level-3-bfs.ts:31-73 | the BFS loop over a queue and a visited set labels exactly the nodes reachable from start, each with its shortest distance |
| GraphBfs.BfsDistances | ysk/fundamentals/graph-fundamentals/level-3-bfs.ts:20-74 | bfsDistances maps start to 0 and every reachable node to its distance in edges, and has no other keys |
| GraphBfs.ShortestAnswerUnique | ysk/fundamentals/graph-fundamentals/level-3-bfs.ts:91-93 | the distance or -1 is determined by the graph, start and end |
| GraphBfs.ShortestPath | ysk/fundamentals/graph-fundamentals/level-3-bfs.ts:101-127 | shortestPath returns the least number of edges from start to end, or -1 exactly when end cannot be reached |
| GraphBfs.GridSteps | ysk/fundamentals/graph-fundamentals/level-3-bfs.ts:185-197 | a step enters exactly the in-bounds cells one row or column away that are not '0' |
| GraphBfs.ShortestGridPath | ysk/fundamentals/graph-fundamentals/level-3-bfs.ts:166-207 | shortestGridPath returns the least number of steps through cells other than '0' from the start cell (never itself checked) to the end cell, or -1 |
| GraphBfs.DiamondDistances | ysk/fundamentals/graph-fundamentals/level-3-bfs.ts:76-88 | on the diamond the distances are 0:0, 1:1, 2:1, 3:2 |
| GraphBfs.ChainAnswers | ysk/fundamentals/graph-fundamentals/level-3-bfs.ts:129-140 | on the chain: 3 hops to 3, 1 hop to 1, 0 to itself and -1 from 3 back to 0 |
| GraphBfs.DisconnectedAnswer | ysk/fundamentals/graph-fundamentals/level-3-bfs.ts:142-148 | node 5 has an entry but cannot be reached from 0: -1 |
| GraphBfs.WindingGrid | ysk/fundamentals/graph-fundamentals/level-3-bfs.ts:209-219 | the winding grid from (0,0) to (2,2) answers 4 |
| GraphBfs.WallStart | ysk/fundamentals/graph-fundamentals/level-3-bfs.ts:173-179 | the start cell is not checked: from the wall at (0,1) the search still steps onto (0,0) |
| GridDfs.Explore | ysk/fundamentals/graph-fundamentals/level-grid-dfs.ts:50-75 | the inner dfs adds only unvisited '1' cells reached from the cell, marks each once, and when the cell was new leaves it and all its open neighbours marked |
| GridDfs.MarkRegion | ysk/fundamentals/graph-fundamentals/level-grid-dfs.ts:30-78 | afterwards visited holds what it held before together with every unvisited '1' cell reachable from the start through such cells; the start itself need not be '1' |
| GridDfs.RegionFromLand | ysk/fundamentals/graph-fundamentals/level-grid-dfs.ts:13-16 | from an unvisited '1' start the region holds the start and only unvisited '1' cells |
| GridDfs.WallStartReaches | ysk/fundamentals/graph-fundamentals/level-grid-dfs.ts:96-99 | as written, a start on the wall at (0, 2) still marks the '1' cell (0, 1) beside it |
| GridDfs.MarkRegionFromLand | ysk/fundamentals/graph-fundamentals/level-grid-dfs.ts:96-99 | corrected: a start that is not '1' marks nothing; otherwise the same region as markRegion |
| GridDfs.Fill | ysk/fundamentals/graph-fundamentals/level-grid-dfs.ts:139-157 | countIslands' dfs marks the cell and everything reachable from it through cells other than '0', and nothing else |
| GridDfs.FilledReach | ysk/fundamentals/graph-fundamentals/level-grid-dfs.ts:139-157 | from an unmarked open cell the search adds exactly the cells it reaches |
| GridDfs.Visit | ysk/fundamentals/graph-fundamentals/level-grid-dfs.ts:162-166 | one cell of the scan: an unmarked '1' is counted and searched from, anything else changes nothing |
| GridDfs.CountIslands | ysk/fundamentals/graph-fundamentals/level-grid-dfs.ts:119-171 | countIslands returns the number of '1' cells that no earlier '1' cell (row-major order) reaches through cells other than '0': one per island |
| GridDfs.WaterIslands | ysk/fundamentals/graph-fundamentals/level-grid-dfs.ts:194-201 | the all-water grid has no islands |
| GridDfs.BlockIslands | ysk/fundamentals/graph-fundamentals/level-grid-dfs.ts:185-192 | the 2x2 block of land is one island |
| GridDfs.TwoIslands | ysk/fundamentals/graph-fundamentals/level-grid-dfs.ts:175-183 | the example grid has two islands, led by (0,0) and (1,3) |
| GridDfs.SingleLandIslands | ysk/fundamentals/graph-fundamentals/level-grid-dfs.ts:213 | the single land cell is one island |
| GridDfs.SingleWaterIslands | ysk/fundamentals/graph-fundamentals/level-grid-dfs.ts:214 | the single water cell has none |
| GridDfs.DiagonalIslands | ysk/fundamentals/graph-fundamentals/level-grid-dfs.ts:203-211 | the diagonal pattern has five islands, since diagonal cells do not connect |
| NumIslands.Sink | ysk/leetcode/200.number-of-islands.ts:3-20 | dfs overwrites with '0' exactly the cells reachable from the start through cells other than '0' and stops at the border and at water |
| NumIslands.SinkAt | ysk/leetcode/200.number-of-islands.ts:25-28 | one cell of the scan: a '1' still standing opens an island, which is then sunk |
| NumIslands.SinkRow | ysk/leetcode/200.number-of-islands.ts:24-29 | one row of the scan, each cell left to right |
| NumIslands.CountSinking | ysk/leetcode/200.number-of-islands.ts:2-33 | numIslands returns the number of islands of the grid it was given, and afterwards every cell of every island, and nothing else, holds '0' |
| NumIslands.NoLandLeft | ysk/leetcode/200.number-of-islands.ts:5-9 | afterwards no '1' is left and water is still water |
| DecodeString.Repeat | ysk/study-guides/394-decode-string/problem.ts:34 | text.repeat(n) has n times the text's length |
| DecodeString.PopText | ysk/study-guides/394-decode-string/problem.ts:21-25 | the first inner loop pops exactly the entries above the topmost "[" and joins them, in stack order, into add |
| DecodeString.PopCount | ysk/study-guides/394-decode-string/problem.ts:28-32 | the second inner loop pops exactly the numeric entries on top and joins them into num |
| DecodeString.CloseBracket | ysk/study-guides/394-decode-string/problem.ts:20-35 | the "]" branch leaves the stack as Close says: the text above the "[" repeated Number(count) times, pushed in place of the count, the "[" and the text |
| DecodeString.Decoder | ysk/study-guides/394-decode-string/problem.ts:14-42 | on a well-formed input (positive digit counts around non-empty bodies of letters and groups) decodeString returns the items' meaning: each group's body decoded and repeated count times, in place |
| DecodeString.JoinOutputs | ysk/study-guides/394-decode-string/problem.ts:41 | joining the entries the items leave gives their decoded text |
| DecodeString.CloseGroup | ysk/study-guides/394-decode-string/problem.ts:20-35 | the "]" of a group turns the count, the "[" and the body's entries into the body's text repeated count times |
| DecodeString.ItemsRun | ysk/study-guides/394-decode-string/problem.ts:17-39 | reading the text of well-formed items leaves one entry per item, its decoded text, on the stack |
| DecodeString.DecodeLower | ysk/study-guides/394-decode-string/problem.ts:10 | a well-formed input decodes to lower-case letters only, and to a non-empty text when it is non-empty |
| DecodeString.PlainText | ysk/study-guides/394-decode-string/problem.ts:73-79 | text without brackets is its own encoding and decodes to itself |
| DecodeString.Concat | ysk/study-guides/394-decode-string/problem.ts:65-71 | items side by side encode and decode side by side, so text around a group keeps its place |
| DecodeString.NestedText | ysk/study-guides/394-decode-string/problem.ts:57-63 | "3[a2[c]]" is well formed and decodes to "accaccacc" |
| DecodeString.NestedExample | ysk/study-guides/394-decode-string/problem.ts:57-63 | decodeString("3[a2[c]]") returns "accaccacc" |
| DecodeString.LargeCountExample | ysk/study-guides/394-decode-string/problem.ts:113-119 | decodeString("10[a]") returns ten a's: a two-digit count is read whole |
| DecodeString.MixedExample | ysk/study-guides/394-decode-string/problem.ts:81-87 | decodeString("a2[b]c") returns "abbc" |
| RemoveKDigits.LeadingZeros | ysk/study-guides/402-remove-k-digits/problem.ts:33-36 | the zero-stripping loop stops before the last character |
| RemoveKDigits.RemoveKdigits | ysk/study-guides/402-remove-k-digits/problem.ts:13-41 | removeKdigits runs the stack loop, pops the removals left over and strips leading zeros, returning "0" for an empty result, as RemoveK states; on a digit string with 0 <= k <= its length the result is no larger than the number left by any way of removing k digits |
| RemoveKDigits.RemoveKSmallest | ysk/study-guides/402-remove-k-digits/problem.ts:1-2 | the result is the smallest possible integer: no way of removing k digits from a digit string leaves a smaller number |
| RemoveKDigits.RemoveKAttained | ysk/study-guides/402-remove-k-digits/problem.ts:25-37 | the smallest value is reached: the kept digits are one way of removing exactly k digits, and the result stands for the same number |
| RemoveKDigits.KeptLeast | ysk/study-guides/402-remove-k-digits/problem.ts:16-29 | the digits kept come first in dictionary order among all ways of removing exactly k digits |
| RemoveKDigits.ScanLeast | ysk/study-guides/402-remove-k-digits/problem.ts:16-23 | after the first loop the stack leads, digit by digit, every subsequence of the number that drops at most k digits |
| RemoveKDigits.LeastPush | ysk/study-guides/402-remove-k-digits/problem.ts:18-22 | popping larger digits and pushing the next one keeps the stack leading every subsequence of the longer prefix |
| RemoveKDigits.ValueMonotone | ysk/study-guides/402-remove-k-digits/problem.ts:1-2 | between digit strings of one length, dictionary order is the order of the numbers they stand for |
| RemoveKDigits.ScanDigits | ysk/study-guides/402-remove-k-digits/problem.ts:16-23 | the first loop leaves the stack and the removals left that the step function Scan gives for the whole number |
| RemoveKDigits.PopLeft | ysk/study-guides/402-remove-k-digits/problem.ts:25-29 | the second loop takes the removals left over off the end, popping an empty stack doing nothing |
| RemoveKDigits.StripZeros | ysk/study-guides/402-remove-k-digits/problem.ts:32-37 | the zero loop drops exactly the leading zeros LeadingZeros counts, never the last character |
| RemoveKDigits.PopShape | ysk/study-guides/402-remove-k-digits/problem.ts:18-21 | the inner loop pops from the top, one removal per pop, and when removals remain the top is no larger than the incoming digit |
| RemoveKDigits.ScanSub | ysk/study-guides/402-remove-k-digits/problem.ts:16-23 | after the first loop the stack is the number with some digits left out, the rest in order |
| RemoveKDigits.ScanCount | ysk/study-guides/402-remove-k-digits/problem.ts:16-23 | each removal spent took out exactly one digit, and none is spent when k <= 0 |
| RemoveKDigits.ScanSorted | ysk/study-guides/402-remove-k-digits/problem.ts:17-22 | while removals remain, the stack is in ascending order |
| RemoveKDigits.KeptShape | ysk/study-guides/402-remove-k-digits/problem.ts:25-29 | exactly k digits are dropped when 0 <= k <= the length, all when k is larger, none when k <= 0, and the rest stay in order |
| RemoveKDigits.StripShape | ysk/study-guides/402-remove-k-digits/problem.ts:31-40 | the result is never empty, an empty stack gives "0", only leading zeros of the kept digits are dropped, and a result longer than one digit has no leading zero |
| RemoveKDigits.StripKeepsValue | ysk/study-guides/402-remove-k-digits/problem.ts:31-37 | stripping the zeros does not change the number the kept digits stand for |
| RemoveKDigits.FirstSample | ysk/study-guides/402-remove-k-digits/problem.ts:48-54 | "1432219" with k = 3 gives "1219" |
| RemoveKDigits.ZeroSample | ysk/study-guides/402-remove-k-digits/problem.ts:56-62 | "10200" with k = 1 gives "200" |
| RemoveKDigits.RemoveAllSample | ysk/study-guides/402-remove-k-digits/problem.ts:64-70 | "10" with k = 2 gives "0" |
| RemoveKDigits.NoRemovalSample | ysk/study-guides/402-remove-k-digits/problem.ts:96-102 | "123" with k = 0 gives "123" |
| LongestValidParens.ValidIff | ysk/study-guides/032-longest-valid-parentheses/problem.ts:4-5 | a substring is well formed exactly when its running balance never dips below where it started and ends where it started |
| LongestValidParens.BalancedEven | ysk/study-guides/032-longest-valid-parentheses/problem.ts:94-96 | well-formed substrings have even length |
| LongestValidParens.MaxBestIsLongest | ysk/study-guides/032-longest-valid-parentheses/problem.ts:4-5 | the largest over all end positions of the longest well-formed substring ending there is the longest well-formed length |
| LongestValidParens.CloseStep | ysk/study-guides/032-longest-valid-parentheses/problem.ts:58-67 | a ')' extends the longest well-formed substring ending before it exactly when the character before that substring is '(', and then also takes in the one ending just before that '(' |
| LongestValidParens.Entry | ysk/study-guides/032-longest-valid-parentheses/problem.ts:50-68 | each table entry dp[i] is the length of the longest well-formed substring ending at index i, by the two ')' cases |
| LongestValidParens.Fill | ysk/study-guides/032-longest-valid-parentheses/problem.ts:52-70 | one pass of the table loop sets dp[i] to that length, raises max to it, and changes no other entry |
| LongestValidParens.LongestDP | ysk/study-guides/032-longest-valid-parentheses/problem.ts:43-74 | longestValidParenthesesDP returns the longest well-formed length |
| LongestValidParens.TopIsStart | ysk/study-guides/032-longest-valid-parentheses/problem.ts:29-31 | the longest well-formed substring ending at the current index starts just after the stack's top |
| LongestValidParens.StackAfterInv | ysk/study-guides/032-longest-valid-parentheses/problem.ts:14-34 | the stack holds the last unmatched ')' (or -1) at the bottom and the unmatched '(' indices above it |
| LongestValidParens.CloseNext | ysk/study-guides/032-longest-valid-parentheses/problem.ts:21-32 | after a ')' the longest well-formed substring it ends reaches back to just after the top of the stack it leaves |
| LongestValidParens.LongestStack | ysk/study-guides/032-longest-valid-parentheses/problem.ts:12-37 | longestValidParentheses returns the longest well-formed length |
| LongestValidParens.LeftPassState | ysk/study-guides/032-longest-valid-parentheses/problem.ts:85-102 | after the left-to-right pass every length recorded is a well-formed substring's, and none starting where the pass starts afresh is longer |
| LongestValidParens.RightPassCovers | ysk/study-guides/032-longest-valid-parentheses/problem.ts:104-120 | the right-to-left pass covers every well-formed substring ending where it starts afresh |
| LongestValidParens.Longer | ysk/study-guides/032-longest-valid-parentheses/problem.ts:104-105 | a well-formed substring at which neither pass starts afresh can be lengthened, so a longest one is met by one of the passes |
| LongestValidParens.TwoPassLongest | ysk/study-guides/032-longest-valid-parentheses/problem.ts:80-123 | the right pass, started from the left pass's maximum, ends with the longest well-formed length |
| LongestValidParens.LongestTwoPass | ysk/study-guides/032-longest-valid-parentheses/problem.ts:80-123 | longestValidParenthesesTwoPass returns the longest well-formed length |
| LongestValidParens.LongestShape | ysk/study-guides/032-longest-valid-parentheses/problem.ts:1-6 | the answer is unique, even, at most the length of the string, and 0 for "" |
| LongestValidParens.Agree | ysk/study-guides/032-longest-valid-parentheses/problem.ts:141-159 | the stack, the table and the two passes return the same even length on every string of parentheses |
| LongestValidParens.OpenOpenClose | ysk/study-guides/032-longest-valid-parentheses/problem.ts:129 | "(()" has answer 2 |
| LongestValidParens.CloseBothEnds | ysk/study-guides/032-longest-valid-parentheses/problem.ts:130 | ")()())" has answer 4 |
| LongestValidParens.EmptyString | ysk/study-guides/032-longest-valid-parentheses/problem.ts:131 | "" has answer 0 |
| LongestValidParens.PairThenOpen | ysk/study-guides/032-longest-valid-parentheses/problem.ts:135 | "()(()" has answer 2 |
| LongestValidParens.NestedPairs | ysk/study-guides/032-longest-valid-parentheses/problem.ts:134 | "()(())" has answer 6 |
| LongestValidParens.Samples | ysk/study-guides/032-longest-valid-parentheses/problem.ts:128-159 | the stack, the table and the two passes give 2 on "(()" and 4 on ")()())" |
| MinimumWindow.ShoppingList | ysk/study-guides/076-minimum-window-substring/solution.ts:20-23 | the shopping list maps each character of check to the number of times it occurs there |
| MinimumWindow.AllSatisfied | ysk/study-guides/076-minimum-window-substring/solution.ts:28-30 | all listed characters are satisfied exactly when the window holds every character of check at least as often as check does |
| MinimumWindow.Enter | ysk/study-guides/076-minimum-window-substring/solution.ts:45-52 | the right letter enters the basket, and the satisfied count grows exactly when its count reaches the listed one |
| MinimumWindow.Leave | ysk/study-guides/076-minimum-window-substring/solution.ts:66-72 | the left letter leaves the basket, and the satisfied count drops exactly when its count was the listed one |
| MinimumWindow.InBasket | ysk/study-guides/076-minimum-window-substring/solution.ts:71 | a listed letter inside the window has a basket entry, so the non-null get is sound |
| MinimumWindow.Extend | ysk/study-guides/076-minimum-window-substring/solution.ts:41-78 | moving the right edge on loses no window: every covering window ending at the old edge has been compared |
| MinimumWindow.Shrink | ysk/study-guides/076-minimum-window-substring/solution.ts:57-61 | a covering window at the left edge replaces the best only when strictly shorter, so ties keep the earlier start |
| MinimumWindow.TakeRight | ysk/study-guides/076-minimum-window-substring/solution.ts:42-52 | taking the right letter keeps the scan state one position on, and the satisfied count equals the list size exactly when the widened window covers check |
| MinimumWindow.Contract | ysk/study-guides/076-minimum-window-substring/solution.ts:55-75 | the inner loop records and shrinks while the window covers check, and stops at the first left edge whose window does not |
| MinimumWindow.Sweep | ysk/study-guides/076-minimum-window-substring/solution.ts:41-78 | after the outer loop the recorded window covers check and no covering window is shorter or equally short and earlier |
| MinimumWindow.Answer | ysk/study-guides/076-minimum-window-substring/solution.ts:81-83 | the result is the recorded window, or "" when nothing was recorded |
| MinimumWindow.MinWindow | ysk/study-guides/076-minimum-window-substring/solution.ts:18-84 | minWindow returns the shortest window of original holding every character of check with multiplicity, the leftmost among equally short ones, and "" when there is none |
| MinimumWindow.SmallestUnique | ysk/study-guides/076-minimum-window-substring/solution.ts:1-6 | the smallest window's length and start are fixed by the two strings |
| MinimumWindow.SingleLetter | ysk/study-guides/076-minimum-window-substring/solution.ts:88 | "a" is its own window for "a" |
| MinimumWindow.TooFew | ysk/study-guides/076-minimum-window-substring/solution.ts:89 | "a" has no window for "aa" |
| MinimumWindow.Samples | ysk/study-guides/076-minimum-window-substring/solution.ts:88-89 | minWindow("a", "a") is "a" and minWindow("a", "aa") is "" |
| LetterCombinations.Backtrack | ysk/study-guides/17-letter-combinations-of-a-phone-number/test-cases.ts:20-41 | backtrack(index, current) appends to result exactly the expansions of current over the digits from index on, in push order: a digit without letters is skipped, otherwise one block per letter in keypad order |
| LetterCombinations.LetterCombinations | ysk/study-guides/17-letter-combinations-of-a-phone-number/test-cases.ts:3-45 | letterCombinations returns [] for "" and otherwise every expansion of "" in push order |
| LetterCombinations.LettersShape | ysk/study-guides/17-letter-combinations-of-a-phone-number/test-cases.ts:7-16 | every digit with an entry offers at least three letters, in strictly increasing order |
| LetterCombinations.ExpandMembers | ysk/study-guides/17-letter-combinations-of-a-phone-number/test-cases.ts:20-41 | the strings backtrack pushes are exactly the completions of current with one letter of each mapped digit |
| LetterCombinations.ExpandCount | ysk/study-guides/17-letter-combinations-of-a-phone-number/test-cases.ts:37-40 | backtrack pushes the product of the letter counts of the mapped digits |
| LetterCombinations.ExpandIncreasing | ysk/study-guides/17-letter-combinations-of-a-phone-number/test-cases.ts:37-40 | the pushed strings come out in increasing dictionary order, the first digit varying slowest |
| LetterCombinations.Members | ysk/study-guides/17-letter-combinations-of-a-phone-number/test-cases.ts:3-45 | for non-empty input a string is in the answer exactly when it takes, position by position, one letter of each digit with letters |
| LetterCombinations.Size | ysk/study-guides/17-letter-combinations-of-a-phone-number/test-cases.ts:4-5 | "" gives no combinations; any other input gives the product of its letter counts |
| LetterCombinations.Ordered | ysk/study-guides/17-letter-combinations-of-a-phone-number/test-cases.ts:66-72 | the answer is in increasing dictionary order, so no combination repeats |
| LetterCombinations.OnlyUnmapped | ysk/study-guides/17-letter-combinations-of-a-phone-number/test-cases.ts:31-35 | input made only of digits without letters, such as "01", gives exactly [""] |
| LetterCombinations.Example23 | ysk/study-guides/17-letter-combinations-of-a-phone-number/test-cases.ts:66-72 | "23" gives ad, ae, af, bd, be, bf, cd, ce, cf in this order |
| LetterCombinations.ExampleCounts | ysk/study-guides/17-letter-combinations-of-a-phone-number/test-cases.ts:100-134 | "2345" gives 81 combinations and "79" gives 16 |
| GroupAnagrams.KeyShape | questions/49-group-anagrams/49-solution.ts:51 | the key is the word's characters in non-decreasing order, the same characters with the same counts |
| GroupAnagrams.SameKey | questions/49-group-anagrams/49-solution.ts:51-52 | two words get the same key exactly when they are anagrams of each other |
| GroupAnagrams.GroupAnagrams | questions/49-group-anagrams/49-solution.ts:49-59 | groupAnagrams returns, for each key in the order it was first set, the words with that key in input order |
| GroupAnagrams.MembersCount | questions/49-group-anagrams/49-solution.ts:52-57 | a key's group holds exactly the words with that key, each as often as in the input |
| GroupAnagrams.FirstKeysShape | questions/49-group-anagrams/49-solution.ts:59 | every key occurs once among the groups, and exactly the keys of the input occur |
| GroupAnagrams.Partition | questions/49-group-anagrams/49-solution.ts:49-59 | the groups partition the input: each word occurs in them as often as in the input, and in the group of its own key |
| GroupAnagrams.SameGroup | questions/49-group-anagrams/49-solution.ts:49-59 | two input words share a group exactly when they are anagrams of each other |
| GroupAnagrams.EmptyWords | questions/49-group-anagrams/49-solution.ts:66 | ["", "", ""] forms a single group of three empty words |
| LongestBrute.RunEnds | questions/003-longest-substring/corrected-solution.ts:8-14 | when the inner loop stops, the run from i is repeat-free and no longer run from i is, because it reached the end or met one of its own characters |
| LongestBrute.LengthOfLongestSubstring | questions/003-longest-substring/corrected-solution.ts:1-21 | lengthOfLongestSubstring returns the length of the longest substring without repeated characters |
| LongestBrute.Samples | questions/003-longest-substring/corrected-solution.ts:24-42 | "abcabc" gives 3 and "bbbbb" gives 1 |
| Substrings.LongestShape | questions/003-longest-substring/corrected-solution.ts:44-47 | the longest repeat-free length is at most the string's length, 0 for "" and at least 1 otherwise |
| Substrings.LongestUnique | questions/003-longest-substring/corrected-solution.ts:1-21 | the longest repeat-free length is determined by the string |
| Substrings.Drop | questions/003-longest-substring/why-track-maximum.ts:12-15 | while the incoming character is still in the window, the window is non-empty, dropping its first character keeps seen equal to the window's characters, and no dropped start could give a repeat-free window |
| Substrings.Admit | questions/003-longest-substring/why-track-maximum.ts:17 | once the incoming character is gone from the window, adding it keeps the window repeat-free and seen in step |
| Substrings.Record | questions/003-longest-substring/why-track-maximum.ts:48-53 | taking the larger of the best so far and the current window keeps best the longest repeat-free length up to the right edge |
| Substrings.SuffixWithinLongest | questions/003-longest-substring/why-track-maximum.ts:100-103 | the longest repeat-free suffix is never longer than the longest repeat-free substring |
| TrackMaximum.WithoutTrackingMaximum | questions/003-longest-substring/why-track-maximum.ts:3-29 | withoutTrackingMaximum returns the length of the longest repeat-free suffix of s, not the longest repeat-free substring |
| TrackMaximum.WithTrackingMaximum | questions/003-longest-substring/why-track-maximum.ts:31-63 | withTrackingMaximum returns the length of the longest repeat-free substring |
| TrackMaximum.Compare | questions/003-longest-substring/why-track-maximum.ts:66-72 | the untracked answer never exceeds the tracked one, and on "abcabcbb" it is 1 where the answer is 3 |
| LeftPointer.VisualSlidingWindow | questions/003-longest-substring/what-happens-to-left.ts:3-63 | visualSlidingWindow returns the length of the longest repeat-free substring, with seen equal to the window's characters after every step |
| LeftPointer.Samples | questions/003-longest-substring/what-happens-to-left.ts:66-71 | "abcabc" and "pwwkew" both give 3 |
| CountWindow.Enter | ysk/questions/test.ts:21-24 | counting the newest character keeps hash a count of the window's characters |
| CountWindow.Crowded | ysk/questions/test.ts:26 | while the newest character is counted twice it also occurs earlier in the window, so the window is not repeat-free |
| CountWindow.OnlyNewest | ysk/questions/test.ts:28-33 | a start character counted more than once is the newest character itself, the rest of the window being repeat-free |
| CountWindow.Leave | ysk/questions/test.ts:28-34 | one shrink step as written: the start character is uncounted (the decremented count is written under the newest character, which is the same character when the count stays positive) and i moves on |
| CountWindow.Settled | ysk/questions/test.ts:26-37 | after the shrink loop the window is repeat-free and hash has exactly one key per position, so hash.size is the window's length |
| CountWindow.Shrink | ysk/questions/test.ts:26-35 | the shrink loop leaves a repeat-free window ending at j, counted by hash, with no earlier start working |
| CountWindow.Slide | ysk/questions/test.ts:21-37 | one pass of the for-loop body: the window moves to end at j + 1, stays counted by hash and repeat-free, and output stays the longest repeat-free length seen and attained |
| CountWindow.LongestSubString | ysk/questions/test.ts:15-41 | longestSubString returns the length of the longest substring without repeated characters |
| CountWindow.Samples | ysk/questions/test.ts:1-13 | "abccabcabcc" gives 3 and "aaaabaaa" gives 2 |
| DistinctWindowSum.SumPush | ysk/leetcode/2461.maximum-sum-of-distinct-subarrays-with-length-k.ts:22 | appending a value adds it to the sum |
| DistinctWindowSum.Grow | ysk/leetcode/2461.maximum-sum-of-distinct-subarrays-with-length-k.ts:21-28 | taking in nums[end] keeps window_sum the window's sum and frequency its value counts |
| DistinctWindowSum.Qualify | ysk/leetcode/2461.maximum-sum-of-distinct-subarrays-with-length-k.ts:34 | a full window repeats no value exactly when frequency has k keys |
| DistinctWindowSum.Consider | ysk/leetcode/2461.maximum-sum-of-distinct-subarrays-with-length-k.ts:34-36 | taking a qualifying full window's sum into max keeps max the best over the windows starting so far |
| DistinctWindowSum.Slide | ysk/leetcode/2461.maximum-sum-of-distinct-subarrays-with-length-k.ts:38-48 | the window's first value is counted in frequency, and dropping it from the sum and the counts (deleting a count that reaches 0) describes the window one shorter |
| DistinctWindowSum.FullStep | ysk/leetcode/2461.maximum-sum-of-distinct-subarrays-with-length-k.ts:32-49 | one step at a full window keeps the loop's state: sum, counts and the best over every window started so far |
| DistinctWindowSum.Finish | ysk/leetcode/2461.maximum-sum-of-distinct-subarrays-with-length-k.ts:51 | at the end every window that fits has been considered |
| DistinctWindowSum.MaximumSubarraySum | ysk/leetcode/2461.maximum-sum-of-distinct-subarrays-with-length-k.ts:2-52 | maximumSubarraySum returns the largest sum of a length-k window whose values are all different, or 0 when there is none or none is positive |
| DistinctWindowSum.Example | ysk/leetcode/2461.maximum-sum-of-distinct-subarrays-with-length-k.ts:55 | [9, 9, 9, 1, 2, 3] with k = 3 gives 12, from [9, 1, 2] |
| TwoSumHash.Extend | questions/001-twosum/001-solution.ts:26-30 | a position whose difference was never seen adds no pair |
| TwoSumHash.TwoSum | questions/001-twosum/001-solution.ts:1-33 | a result [i, j] has i < j and sums to target, j being the first position with a partner before it and i its last such partner; [] exactly when no two positions sum to target |
| TwoSumHash.Examples | questions/001-twosum/001-solution.ts:35-37 | [3, 2, 4] with 6 gives [1, 2], [2, 7, 11, 15] with 9 gives [0, 1], [3, 3] with 6 gives [0, 1] |
| TwoSumPointers.TwoSum | ysk/questions/test.py:1-17 | a result [i, j] has i < j and sums to target; on an ascending array [] comes back only when no pair sums to target |
| TwoSumPointers.Example | ysk/questions/test.py:20 | in [2, 3, 4, 5, 8, 11, 18] the target 8 gives [1, 3] |
| BinarySearch.FirstIndex | questions/remove-duplicates/remove-duplicates.ts:1-23 | the reference answer is -1 exactly when target is absent, and otherwise the first index holding it |
| BinarySearch.Search | questions/remove-duplicates/remove-duplicates.ts:1-23 | binarySearch returns -1 or an index holding target, -1 whenever target is absent, and on an ascending array the first index holding it |
| BinarySearch.Leftmost | questions/remove-duplicates/remove-duplicates.ts:13-20 | when the loop ends with everything left of left below target and boundary at or before every later occurrence, boundary is the first occurrence |
| BinarySearch.Example | questions/remove-duplicates/remove-duplicates.ts:26 | 3 in [1, 3, 3, 3, 3, 6, 10, 10, 10, 100] is found at index 1 |
| FirstBadVersion.FirstBad | ysk/leetcode/278.first-bad-version.ts:9-28 | the answer is 0 or a version the oracle called bad, 0 when none of 0..n is bad, and for a monotone oracle the first bad version |
| FirstBadVersion.Examples | ysk/leetcode/278.first-bad-version.ts:32-37 | with bad from 4 on, n = 5 gives 4 and n = 1 gives 0 |
| UniquePaths.FillRow | ysk/study-guides/unique-paths-grid/problem.ts:22-26 | filling row i from the row above and the cell to the left leaves rows 0..i holding the path counts, keeps the first column at 1 and changes no other row |
| UniquePaths.Count | ysk/study-guides/unique-paths-grid/problem.ts:13-29 | for n, m >= 1 the last cell of the table is the number of right-and-down paths across an n x m grid |
| UniquePaths.PathsBinomial | ysk/study-guides/unique-paths-grid/problem.ts:108-131 | the path count to cell (i, j) is the binomial coefficient C(i + j, i): count * i! * j! == (i + j)! |
| UniquePaths.CountIsBinomial | ysk/study-guides/unique-paths-grid/problem.ts:13-29 | uniquePaths(n, m) is C(n + m - 2, n - 1) |
| UniquePaths.PathsSymmetric | ysk/study-guides/unique-paths-grid/problem.ts:68-98 | swapping the grid's rows and columns gives the same count |
| UniquePaths.SingleLine | ysk/study-guides/unique-paths-grid/problem.ts:76-90 | a single row or a single column has exactly one path |
| UniquePaths.SmallSamples | ysk/study-guides/unique-paths-grid/problem.ts:44-66 | 2x2 gives 2, 3x3 gives 6 and 3x4 gives 10 |
| UniquePaths.MirrorSample | ysk/study-guides/unique-paths-grid/problem.ts:68-98 | 3x7 and 7x3 both give 28 |
| UniquePaths.SquareSamples | ysk/study-guides/unique-paths-grid/problem.ts:100-131 | 4x4 gives 20, 5x5 gives 70 and 6x4 gives 56 |
| AddTwoNumbers.Add | questions/002-add-two-numbers/002-solution.ts:53-75 | the result stands for the sum of the two numbers, holds only digits, is empty exactly when both inputs are, has the longer input's length or one more node holding 1, and has no leading zero when the inputs have none |
| AddTwoNumbers.AccountsNext | questions/002-add-two-numbers/002-solution.ts:61-72 | one loop pass keeps the digits written plus the carry equal to the value of the nodes read so far |
| AddTwoNumbers.CarryStep | questions/002-add-two-numbers/002-solution.ts:64-67 | writing sum % 10 and carrying sum / 10 one place up preserves the total |
| AddTwoNumbers.ValueInjective | questions/002-add-two-numbers/002-solution.ts:53-75 | two digit lists without leading zeros that stand for the same number are equal |
| AddTwoNumbers.ToDigits | questions/002-add-two-numbers/002-solution.ts:53-75 | the digit list of a non-negative number has no leading zero and stands for that number |
| AddTwoNumbers.AddCanonical | questions/002-add-two-numbers/002-solution.ts:53-75 | on digit lists without leading zeros the result is exactly the digit list of the sum |
| AddTwoNumbers.Example | questions/002-add-two-numbers/002-solution.ts:77-99 | 342 + 465 = 807, that is [2, 4, 3] + [5, 6, 4] gives [7, 0, 8] |
| AuditService.AuditStore.constructor | projects/mock-takehome/part-2-code/src/services/auditService.ts:8 | the store starts empty |
| AuditService.AuditStore.LogPatientAccess | projects/mock-takehome/part-2-code/src/services/auditService.ts:21-42 | the new entry copies the patient id and the provider's id, name and role, is a view, is appended once at the end with earlier entries untouched, and is returned; the patient's history grows by exactly that entry |
| AuditService.AuditStore.ForPatientSpec | projects/mock-takehome/part-2-code/src/services/auditService.ts:50-52 | a patient's logs are exactly the stored entries with that patient id, each as often as stored, in stored order |
| AuditService.AuditStore.AllAuditLogsSpec | projects/mock-takehome/part-2-code/src/services/auditService.ts:60-84 | the answer holds each stored entry every supplied filter accepts, as often as stored and nothing else, newest first, entries of equal time in stored order |
| AuditService.SelectCount | projects/mock-takehome/part-2-code/src/services/auditService.ts:66-79 | the four filters keep exactly the entries every supplied filter accepts; an absent or empty filter imposes nothing |
| AuditService.SelectAppend | projects/mock-takehome/part-2-code/src/services/auditService.ts:66-79 | the filters keep the stored order |
| AuditService.FilterAppend | projects/mock-takehome/part-2-code/src/services/auditService.ts:51 | Array filter distributes over concatenation, keeping order |
| AuditService.FilterCount | projects/mock-takehome/part-2-code/src/services/auditService.ts:51 | Array filter keeps each accepted entry as often as it occurs and drops the rest |
| AuditService.FilterKeeps | projects/mock-takehome/part-2-code/src/services/auditService.ts:51 | every entry Array filter keeps is accepted |
| AuditService.FilterNone | projects/mock-takehome/part-2-code/src/services/auditService.ts:51 | a filter no entry passes leaves nothing |
| AuditService.PlaceCount | projects/mock-takehome/part-2-code/src/services/auditService.ts:81-83 | one insertion step of the sort adds exactly the one entry |
| AuditService.PlaceDescending | projects/mock-takehome/part-2-code/src/services/auditService.ts:81-83 | an insertion step keeps a newest-first sequence newest first |
| AuditService.PlaceStable | projects/mock-takehome/part-2-code/src/services/auditService.ts:81-83 | an insertion step puts the entry after those of the same time already there |
| AuditService.NewestFirstCount | projects/mock-takehome/part-2-code/src/services/auditService.ts:81-83 | the sort is a permutation |
| AuditService.NewestFirstDescending | projects/mock-takehome/part-2-code/src/services/auditService.ts:81-83 | the sorted copy is newest first by the comparator time(b) - time(a) |
| AuditService.NewestFirstStable | projects/mock-takehome/part-2-code/src/services/auditService.ts:81-83 | the sort is stable: entries of the same time keep their input order |
| AuditService.AtMostTotal | projects/mock-takehome/part-2-code/src/services/auditService.ts:69-72 | the string comparison used by the date filters is total |
| AuditService.PrefixAtMost | projects/mock-takehome/part-2-code/src/services/auditService.ts:69 | a string compares at most each of its extensions |
| AuditService.ExtensionAbove | projects/mock-takehome/part-2-code/src/services/auditService.ts:72 | a proper extension of a string is not at most that string |
| AuditService.SameDay | projects/mock-takehome/part-2-code/src/services/auditService.ts:68-73 | with a bare date as the bound, an entry stamped later that same day passes startDate but fails endDate, because the filters compare strings |
| Validation.Start | projects/mock-takehome/part-2-code/src/utils/validation.ts:9 | where trim starts: the first non-whitespace index, everything before it whitespace |
| Validation.End | projects/mock-takehome/part-2-code/src/utils/validation.ts:9 | where trim stops: just past the last non-whitespace index, everything after it whitespace |
| Validation.StartUnique | projects/mock-takehome/part-2-code/src/utils/validation.ts:9 | only one index meets the description of where trim starts |
| Validation.EndUnique | projects/mock-takehome/part-2-code/src/utils/validation.ts:9 | only one index meets the description of where trim stops |
| Validation.Trim | projects/mock-takehome/part-2-code/src/utils/validation.ts:9 | a non-empty trimmed value neither starts nor ends with whitespace |
| Validation.TrimShape | projects/mock-takehome/part-2-code/src/utils/validation.ts:9 | trim leaves nothing exactly when the value is all whitespace, and otherwise cuts only a whitespace prefix and suffix |
| Validation.EmbeddedTrim | projects/mock-takehome/part-2-code/src/utils/validation.ts:9 | trim of a value with whitespace around it is trim of the value |
| Validation.TrimPadded | projects/mock-takehome/part-2-code/src/utils/validation.ts:9 | whitespace added around a value is cut off by trim |
| Validation.IsNotEmpty | projects/mock-takehome/part-2-code/src/utils/validation.ts:8-10 | isNotEmpty holds exactly when the value has a character other than whitespace |
| Validation.IsWithinLength | projects/mock-takehome/part-2-code/src/utils/validation.ts:15-22 | a true answer needs min <= max and min <= the value's length, so min > max always gives false |
| Validation.PaddingIgnored | projects/mock-takehome/part-2-code/src/utils/validation.ts:20-21 | outer whitespace counts toward neither check |
| Validation.NotEmptyIsLengthAtLeastOne | projects/mock-takehome/part-2-code/src/utils/validation.ts:8-22 | isNotEmpty(v) is isWithinLength(v, 1, length of v) |
| Validation.BlankSamples | projects/mock-takehome/part-2-code/src/utils/validation.ts:5-10 | the empty string and a whitespace-only string fail isNotEmpty |
| Validation.PaddedSample | projects/mock-takehome/part-2-code/src/utils/validation.ts:8-10 | "  a " passes isNotEmpty |
| Validation.LengthSample | projects/mock-takehome/part-2-code/src/utils/validation.ts:15-22 | "  abc  " is within length 3..3 |
| Validation.TooLongSample | projects/mock-takehome/part-2-code/src/utils/validation.ts:15-22 | "abcd" is not within length 1..3 |
| HeapTrees.Node.constructor | ysk/leetcode/701.insert-into-a-binary-search-tree.ts:25-34 | a new node holds the given value and has no children |

## Left out

- UI and rendering (React and Remotion components), console output, the `test`/`runTests` helpers and `visualizeTree`: they only display results.
- Process, file and network scripts (text-to-speech, PDF export), the Promise combinators and the priority-queue wrappers, whose behaviour lives in a library that is not part of this model.
- `powx-n` and the first `addTwoNumbers`: they compute with floating point and number-to-string conversion.
- Unimplemented stubs have no behaviour to model: `getTasksToRun` in the topological-sort exercise returns `[]`, `maxIslandArea` (ysk/fundamentals/graph-fundamentals/level-grid-dfs.ts:233) and `flattenOptimized` are empty, and the daily-temperatures, reverse-linked-list-ii, minimum-window problem file and cloud-compliance stubs throw or return nothing.
- The intentionally broken longest-substring drafts and the print-only simulations.
- JavaScript numbers are unbounded integers here: no exercise is modelled with 53-bit precision or overflow.
- Strings are sequences of Dafny characters. JavaScript compares strings by UTF-16 code unit; this matches the model for text inside the Basic Multilingual Plane. This affects the audit date filters and the sort key of `groupAnagrams`.
- AuditService.AuditStore.LogPatientAccess: `generateId`, `new Date().toISOString()` and `getMockIpAddress` use the clock and randomness, so the id, timestamp and IP address are parameters.
- AuditService.AuditStore.AllAuditLogsSpec: `new Date(...).getTime()` is the parameter `time`, and an unparsable date (`NaN`, which makes the comparator inconsistent) is not modelled. The access-reason TODOs in the service and in the validators are not implemented in the source and not modelled.
- Expenses.Calculate: the source produces `NaN` in two cases, and the model excludes both with the precondition `Funded`. A department with subdepartments but no approved expense of its own computes `undefined + number`. A department whose subdepartment has no approved expense of its own reads that subdepartment's missing entry and computes `number + undefined`. Equality with the recursive roll-up is proved only when no department shares its name with one below it (`Unshadowed`), since the source's `Object.assign` lets the later entry overwrite the earlier one.
- MinimumWindow.MinWindow: requires a non-empty `t` when `s` is non-empty, because the source loops forever on an empty `t`.
- DecodeString.Decoder: requires well-formed input (the text is the encoding of a sequence of items); on malformed input the source can pop an empty stack or loop forever.
- LongestValidParens.LongestStack, LongestValidParens.LongestDP, LongestValidParens.LongestTwoPass: require a string of brackets only, the input alphabet the problem statement gives.
- GraphBuild.BuildDirected, GraphBuild.BuildUndirected: require every edge end to be a node label below `n`; otherwise the source calls `push` on `undefined` and throws.
- GraphBfs.ShortestGridPath: requires at least one row, because the source reads `grid[0].length`.
- TreeTraversal.Decode: on a token stream that runs out the source recurses on `undefined` without end; the model returns `None`.
- AddTwoNumbers.Add: the lists are sequences of digits, not linked nodes, so sharing and the reuse of nodes are not modelled. The inputs are never changed, which holds trivially for values.
- Flatten.FlattenTree, InvertTree.InvertTreeInPlace, InsertBst.InsertIntoBST: require a tree whose nodes are not shared (`Realizes`), as built by the source's `buildTree`.
- The heap-level example tables of `invertTree`, `flatten` and `insertIntoBST` are stated as lemmas about the value trees: building the nodes in a method costs too much to verify.
- UniquePaths.SquareSamples: the 10x10 case (48620) is not stated, because evaluating it costs too much to verify. The closed form `PathsBinomial` covers it.
- FirstBadVersion.Examples: the comment beside the `n = 1` call expects 1, but the code returns 0, and the model states 0.

## Findings

| source | as written | input that shows it | evidently intended | confidence | as-written member | corrected member |
|---|---|---|---|---|---|---|
| ysk/leetcode/572.subtree-of-another-tree.ts:31-42 | `isSubtree` returns false as soon as `root` is null, even when `subRoot` is null too | `isSubtree(null, null)` gives false; the test at lines 78-80 expects true | the empty tree is a subtree of every tree | not executed | Subtree.EmptyPairDiffers | Subtree.IsSubtreeOrEmpty |
| questions/vanta-style-problems/easy-expense-reimbursement.ts:66-71 | the technology rule approves any amount under 1000 and never reads `has_manager_approval` | a 900 technology expense without manager approval is auto-approved | technology under 1000 is approved only with manager pre-approval | not executed | Expenses.ApprovalIgnored | Expenses.Check |
| ysk/fundamentals/graph-fundamentals/level-grid-dfs.ts:30-79 | `markRegion` started on a '0' cell still recurses into its '1' neighbours | on the grid [[1,1,0],[0,1,0],[0,0,0]] starting at (0, 2), cell (0, 1) is marked; the test at lines 96-99 says nothing should be marked | a start on water or a wall marks nothing | not executed | GridDfs.WallStartReaches | GridDfs.MarkRegionFromLand |
