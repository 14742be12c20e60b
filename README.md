# Data-Structure-Visualizer, modelled in Dafny

Data-Structure-Visualizer is an Angular application with one page per data
structure. Each page keeps the structure in a component. Buttons edit it from a
text box, and a physics canvas draws it. This project models what those
components do to their data:

- **Stack** (`StackVisualizer`): push a label from the box and pop the top. The top box is drawn in its own colour.
- **Queue** (`QueueVisualizer`): enqueue at the back and dequeue from the front. The front box has its own colour. A search runs front to back, and there are the `front`, `size` and `isEmpty` getters.
- **Linked list** (`LinkedListVisualizer`): insert at the front or the back, delete the first node with a label, search from the head, and the head/tail/size getters.
- **Array binary tree** (`BinaryTreeVisualizer`, `IndexTree`): labels sit in slots laid out breadth-first.
  - Deleting a label empties the slots of its whole subtree and remembers them as free. Insertion fills the lowest free slot before it appends.
  - The search is breadth-first. Height, root and size are modelled too.
  - A handler that reaches an emptied slot with `.label` or `.render` stops with a JavaScript `TypeError`. The model returns `TypeError` there.
- **Max-heap** (`MaxHeapVisualizer`, `IndexTree`): distinct numbers in a breadth-first array.
  - Insertion appends and sifts up.
  - Deletion splices the entry out, renumbers the entries and rebuilds the heap bottom-up by sifting down.
  - The edges are rebuilt, and the four traversal getters list the values.
- **Bubble sort** (`BubblePasses`, `BubbleSortVisualizer`): the animated in-place sort over an `array`, and the step mode. The step mode records every comparison with a snapshot of the array, then replays the snapshots forwards and backwards.
- **Binary search tree** (`BSTShape`, `BinarySearchTreeVisualizer`): the component keeps three things: the linked tree, the list of its node objects, and the list of drawn edges.
  - Insertion attaches a leaf.
  - Deletion splices out a node with at most one child. A node with two children takes its in-order successor's value, and the successor is removed instead.
  - Also modelled: the search descent, height, size, the four traversal getters and the rebuilding of the edges.

Components whose handlers change fields step by step are classes. Their
methods `modify` exactly the fields the handler assigns. The traversals, the
sort's passes and the tree shapes are functions with lemmas. Every loop of a
handler is a `while` loop with its invariants. Each loop is proved against a
specification function, and the properties of that function are proved
separately: permutation, sortedness, the heap property, BST order, and edge
and node-list consistency.

## Model

| member | source | states |
|---|---|---|
| Common.FirstIndex | src/app/pages/visualizer/linkedlist/linkedlist.ts:114-115 | `findIndex`: none exactly when the label is absent; otherwise the position of the first occurrence, with no occurrence before it |
| Common.LinearSearch | src/app/pages/visualizer/linkedlist/linkedlist.ts:148-170 | the front-to-back scan: it finds the first occurrence or none; it visits positions 0, 1, … up to and including the hit, or every position on a miss |
| Common.LinearSearchFinds | src/app/pages/visualizer/linkedlist/linkedlist.ts:148-170 | a label first occurring at i is found at i after visiting exactly 0..i |
| Common.LinearSearchMisses | src/app/pages/visualizer/linkedlist/linkedlist.ts:171-178 | an absent label is reported not found after every position is visited |
| Common.Labels | src/app/pages/visualizer/stack/stack.ts:18 | the labels of a component's boxes, one per box, in the order of its list (bottom first for the stack, front first for the queue) |
| Common.Range | src/app/pages/visualizer/linkedlist/linkedlist.ts:149 | the positions a counting loop visits, lo up to hi exclusive |
| Common.NoDuplicatesAppend | src/app/pages/visualizer/binarysearchtree/binarysearchtree.ts:157 | pushing elements not yet in a duplicate-free list keeps it duplicate-free |
| StackVisualizer.Stack.constructor | src/app/pages/visualizer/stack/stack.ts:18-73 | the stack and the input box start empty |
| StackVisualizer.Stack.ConfirmPush | src/app/pages/visualizer/stack/stack.ts:76-90 | a blank box pushes nothing; otherwise the label is pushed on top, the top alone is highlighted, and the box is emptied |
| StackVisualizer.Stack.UpdateTopHighlight | src/app/pages/visualizer/stack/stack.ts:94-100 | the labels are unchanged, and exactly the last box carries the top colour |
| StackVisualizer.Stack.Pop | src/app/pages/visualizer/stack/stack.ts:166-174 | popping an empty stack does nothing; otherwise exactly the top box leaves |
| StackVisualizer.PushThenPop | src/app/pages/visualizer/stack/stack.ts:76-174 | a push followed by a pop restores the stack's labels (last in, first out) |
| QueueVisualizer.Queue.constructor | src/app/pages/visualizer/queue/queue.ts:79-88 | the queue, the input box and the last enqueued and dequeued labels start empty |
| QueueVisualizer.Queue.IsEmpty | src/app/pages/visualizer/queue/queue.ts:200-202 | true exactly when the size is zero |
| QueueVisualizer.Queue.Size | src/app/pages/visualizer/queue/queue.ts:209-211 | the number of labels in the queue |
| QueueVisualizer.Queue.Front | src/app/pages/visualizer/queue/queue.ts:204-207 | 'null' for an empty queue; otherwise the front label, which is never blank |
| QueueVisualizer.Queue.Enqueue | src/app/pages/visualizer/queue/queue.ts:140-159 | a blank box changes nothing but the box; otherwise the label joins the back, the front alone is highlighted, and it becomes the last enqueued |
| QueueVisualizer.Queue.Dequeue | src/app/pages/visualizer/queue/queue.ts:161-190 | an empty queue is left alone; otherwise exactly the front box leaves and its label becomes the last dequeued |
| QueueVisualizer.Queue.Clear | src/app/pages/visualizer/queue/queue.ts:192-198 | the queue is emptied |
| QueueVisualizer.Queue.UpdateFrontHighlight | src/app/pages/visualizer/queue/queue.ts:213-221 | the labels are unchanged, and exactly the box at the front carries the front colour |
| QueueVisualizer.Queue.SearchQueue | src/app/pages/visualizer/queue/queue.ts:92-138 | a blank box visits nothing; otherwise the boxes are visited front to back, stopping at the first box holding the label |
| QueueVisualizer.FifoExample | src/app/pages/visualizer/queue/queue.ts:140-211 | enqueue a, enqueue b, enqueue c, dequeue: the front is b and the size is 2 (first in, first out) |
| LinkedListVisualizer.RemoveFirst | src/app/pages/visualizer/linkedlist/linkedlist.ts:114-119 | the list without the first occurrence of the label: unchanged when it is absent, one shorter when it is present |
| LinkedListVisualizer.RemoveFirstMultiset | src/app/pages/visualizer/linkedlist/linkedlist.ts:114-119 | the splice takes out exactly one copy of the label and keeps every other label |
| LinkedListVisualizer.RemoveFirstPositions | src/app/pages/visualizer/linkedlist/linkedlist.ts:119 | nodes before the first match keep their positions; nodes after it move up by one |
| LinkedListVisualizer.RemoveFirstAfterPrepend | src/app/pages/visualizer/linkedlist/linkedlist.ts:83-119 | deleting a label just inserted at the front restores the list |
| LinkedListVisualizer.RemoveFirstAfterAppend | src/app/pages/visualizer/linkedlist/linkedlist.ts:105-119 | deleting a label just appended (absent before) restores the list |
| LinkedListVisualizer.LinkedList.constructor | src/app/pages/visualizer/linkedlist/linkedlist.ts:200-213 | the list, the input box and the last inserted and deleted labels start empty |
| LinkedListVisualizer.LinkedList.InsertAtFront | src/app/pages/visualizer/linkedlist/linkedlist.ts:67-87 | a blank box changes nothing; otherwise the label becomes the head, is recorded as last inserted, and the box is emptied |
| LinkedListVisualizer.LinkedList.InsertNode | src/app/pages/visualizer/linkedlist/linkedlist.ts:93-109 | a blank box changes nothing; otherwise the label becomes the tail, is recorded as last inserted, and the box is emptied |
| LinkedListVisualizer.LinkedList.InsertAtLast | src/app/pages/visualizer/linkedlist/linkedlist.ts:89-91 | the same effect as inserting at the tail |
| LinkedListVisualizer.LinkedList.DeleteNode | src/app/pages/visualizer/linkedlist/linkedlist.ts:111-128 | a blank or absent label changes nothing; otherwise its first occurrence is removed and recorded as last deleted, and the box is emptied |
| LinkedListVisualizer.LinkedList.Clear | src/app/pages/visualizer/linkedlist/linkedlist.ts:130-135 | the list is emptied |
| LinkedListVisualizer.LinkedList.SearchNode | src/app/pages/visualizer/linkedlist/linkedlist.ts:137-181 | a blank box visits nothing; otherwise nodes are visited from the head, stopping at the first match |
| LinkedListVisualizer.LinkedList.IsEmpty | src/app/pages/visualizer/linkedlist/linkedlist.ts:183-185 | true exactly when the size is zero |
| LinkedListVisualizer.LinkedList.Size | src/app/pages/visualizer/linkedlist/linkedlist.ts:197-199 | the number of nodes |
| LinkedListVisualizer.LinkedList.Head | src/app/pages/visualizer/linkedlist/linkedlist.ts:187-190 | 'null' for an empty list; otherwise the first label, never blank |
| LinkedListVisualizer.LinkedList.Tail | src/app/pages/visualizer/linkedlist/linkedlist.ts:192-195 | 'null' for an empty list; otherwise the last label, never blank |
| IndexTree.ParentChild | src/app/pages/visualizer/binarytree/binarytree.ts:15-16 | each slot i > 0 is the left or right child of floor((i-1)/2), which lies before it; the parent of each child of i is i |
| IndexTree.DescendantIsBelow | src/app/pages/visualizer/binarytree/binarytree.ts:80-87 | a slot of the subtree of a lies at or after a |
| IndexTree.ChildDescendant | src/app/pages/visualizer/binarytree/binarytree.ts:83-86 | a slot under either child of a is a proper descendant of a |
| IndexTree.DescendantViaChild | src/app/pages/visualizer/binarytree/binarytree.ts:83-86 | a proper descendant of a lies under exactly one of its children |
| IndexTree.AncestorsComparable | src/app/pages/visualizer/binarytree/binarytree.ts:80-87 | two ancestors of a slot are ancestor and descendant of each other |
| IndexTree.NotDescendant | src/app/pages/visualizer/binarytree/binarytree.ts:83-86 | a slot is not under its sibling |
| IndexTree.RootIsAncestor | src/app/pages/visualizer/binarytree/binarytree.ts:126 | every slot is under the root |
| IndexTree.PreorderMembers | src/app/pages/visualizer/maxheap/maxheap.ts:21-31 | the preorder walk from slot i lists exactly the in-range slots of i's subtree |
| IndexTree.PreorderNoDuplicates | src/app/pages/visualizer/maxheap/maxheap.ts:21-31 | the preorder walk lists no slot twice |
| IndexTree.JoinSubtrees | src/app/pages/visualizer/maxheap/maxheap.ts:23-28 | a slot followed by walks of its two subtrees repeats no slot |
| IndexTree.TraversalsSameSlots | src/app/pages/visualizer/maxheap/maxheap.ts:21-53 | the inorder and postorder walks list the same slots as the preorder walk |
| IndexTree.TraversalsVisitEachSlotOnce | src/app/pages/visualizer/maxheap/maxheap.ts:21-53 | from the root, each walk lists every slot below n exactly once and nothing else |
| IndexTree.NoDuplicatesCountOne | src/app/pages/visualizer/maxheap/maxheap.ts:21-31 | an element of a duplicate-free list occurs once |
| IndexTree.LeftDepthAntitone | src/app/pages/visualizer/binarytree/binarytree.ts:19-25 | a slot further right has no more levels beneath it |
| IndexTree.LeftDepthBounds | src/app/pages/visualizer/binarytree/binarytree.ts:19-25 | the levels under slot i are d with (i+1)·2^(d-1) ≤ n < (i+1)·2^d |
| IndexTree.RootDepthBounds | src/app/pages/visualizer/binarytree/binarytree.ts:19-25 | n slots span d levels with 2^(d-1) ≤ n < 2^d |
| IndexTree.ChildScale | src/app/pages/visualizer/binarytree/binarytree.ts:15 | the arithmetic of moving one level down the left spine |
| BinaryTreeVisualizer.AncestorOccupied | src/app/pages/visualizer/binarytree/binarytree.ts:64-70 | in a tree-shaped layout every ancestor of an occupied slot is occupied |
| BinaryTreeVisualizer.CollectIndices | src/app/pages/visualizer/binarytree/binarytree.ts:80-89 | `collectIndices` lists only occupied slots of the subtree |
| BinaryTreeVisualizer.CollectIndicesComplete | src/app/pages/visualizer/binarytree/binarytree.ts:80-89 | in a tree-shaped layout it lists every occupied slot of the subtree |
| BinaryTreeVisualizer.CollectIndicesNoDuplicates | src/app/pages/visualizer/binarytree/binarytree.ts:80-89 | it lists no slot twice |
| BinaryTreeVisualizer.CollectIndicesExact | src/app/pages/visualizer/binarytree/binarytree.ts:80-89 | it lists exactly the occupied slots of the subtree, each once |
| BinaryTreeVisualizer.FilterEdges | src/app/pages/visualizer/binarytree/binarytree.ts:101-103 | an edge survives exactly when neither end is a deleted slot |
| BinaryTreeVisualizer.FindSlot | src/app/pages/visualizer/binarytree/binarytree.ts:77 | `findIndex` on the slots: the first slot holding the label, none when every slot is occupied and none matches, and a `TypeError` when an emptied slot comes before any match |
| BinaryTreeVisualizer.InsertSorted | src/app/pages/visualizer/binarytree/binarytree.ts:36 | inserting into a sorted list keeps it sorted, with one more element and the same members plus the new one |
| BinaryTreeVisualizer.InsertSortedValues | src/app/pages/visualizer/binarytree/binarytree.ts:36 | the insertion adds exactly one copy of the new element |
| BinaryTreeVisualizer.SortAsc | src/app/pages/visualizer/binarytree/binarytree.ts:36 | `sort((a, b) => a - b)`: sorted and a permutation of the free list |
| BinaryTreeVisualizer.HeightIsLeftDepth | src/app/pages/visualizer/binarytree/binarytree.ts:19-25 | the recursive height from slot i equals the depth of i's left spine |
| BinaryTreeVisualizer.HeightBounds | src/app/pages/visualizer/binarytree/binarytree.ts:19-25 | height 0 for no slots; otherwise h with 2^(h-1) ≤ slots < 2^h |
| BinaryTreeVisualizer.Gaps | src/app/pages/visualizer/binarytree/binarytree.ts:96-97 | the emptied slots, each once, and their number plus the occupied slots is the array length |
| BinaryTreeVisualizer.LowestFree | src/app/pages/visualizer/binarytree/binarytree.ts:33-40 | the first empty slot, or the length when there is none |
| BinaryTreeVisualizer.Place | src/app/pages/visualizer/binarytree/binarytree.ts:57-61 | writes the label into a gap or appends it; every other slot is unchanged |
| BinaryTreeVisualizer.Cleared | src/app/pages/visualizer/binarytree/binarytree.ts:92-99 | the slots of the subtree become empty, and the others are unchanged |
| BinaryTreeVisualizer.TakeLowestFree | src/app/pages/visualizer/binarytree/binarytree.ts:34-37 | the head of the sorted free list is the lowest empty slot, and its tail is the free list after filling it |
| BinaryTreeVisualizer.AppendWhenNoneFree | src/app/pages/visualizer/binarytree/binarytree.ts:38-40 | with no free slot the label is appended, and the free list stays exact |
| BinaryTreeVisualizer.PlaceKeepsShape | src/app/pages/visualizer/binarytree/binarytree.ts:57-70 | filling the lowest free slot keeps the tree shape; its parent is occupied, so the one new edge is the parent link |
| BinaryTreeVisualizer.InsertKeepsLayout | src/app/pages/visualizer/binarytree/binarytree.ts:30-73 | an insertion keeps the layout invariant: tree shape, exact free list, exactly the parent edges |
| BinaryTreeVisualizer.ClearedSlots | src/app/pages/visualizer/binarytree/binarytree.ts:92-99 | emptying the collected slots is exactly clearing the subtree |
| BinaryTreeVisualizer.ClearedKeepsShape | src/app/pages/visualizer/binarytree/binarytree.ts:88-103 | clearing a subtree keeps the tree shape; the free list gains exactly its slots, and the edges into it go |
| BinaryTreeVisualizer.ClearedKeepsLayout | src/app/pages/visualizer/binarytree/binarytree.ts:75-105 | a deletion keeps the layout invariant |
| BinaryTreeVisualizer.MarkEmpty | src/app/pages/visualizer/binarytree/binarytree.ts:92-99 | the loop empties exactly the listed slots and adds each to the free list once |
| BinaryTreeVisualizer.PlaceLabel | src/app/pages/visualizer/binarytree/binarytree.ts:33-70 | the insertion's effect, keeping the layout invariant: the label fills the lowest free slot, the free list becomes its sorted tail, and exactly the one parent edge is appended |
| BinaryTreeVisualizer.DeleteSubtree | src/app/pages/visualizer/binarytree/binarytree.ts:88-103 | the deletion's effect: the subtree is cleared and the layout kept; the edge list is the old one filtered of the collected slots, which removes exactly the edges into the subtree |
| BinaryTreeVisualizer.BinaryTree.constructor | src/app/pages/visualizer/binarytree/binarytree.ts:198-213 | no slots, no free slots and no edges |
| BinaryTreeVisualizer.BinaryTree.InsertNode | src/app/pages/visualizer/binarytree/binarytree.ts:30-73 | a blank box changes nothing; otherwise the label goes to the lowest free slot (or the end), the free list loses that slot, exactly its parent edge is appended, the layout invariant holds, and the box is emptied |
| BinaryTreeVisualizer.BinaryTree.DeleteNode | src/app/pages/visualizer/binarytree/binarytree.ts:75-105 | a blank box or an absent label changes nothing, and a gap before any match is a `TypeError`; otherwise the subtree is cleared, the edge list is filtered of exactly the edges into it, and the label becomes the last deleted |
| BinaryTreeVisualizer.BinaryTree.SearchNode | src/app/pages/visualizer/binarytree/binarytree.ts:107-174 | a blank box visits nothing; any gap is a `TypeError`; otherwise the slots are visited in index order, stopping at the first match |
| BinaryTreeVisualizer.BinaryTree.Clear | src/app/pages/visualizer/binarytree/binarytree.ts:176-183 | no slots, no edges and no free slots |
| BinaryTreeVisualizer.BinaryTree.Root | src/app/pages/visualizer/binarytree/binarytree.ts:185-188 | 'null' with no slots; a `TypeError` when slot 0 is empty; otherwise the root label |
| BinaryTreeVisualizer.BinaryTree.Size | src/app/pages/visualizer/binarytree/binarytree.ts:190-192 | the array length: occupied slots plus free ones |
| BinaryTreeVisualizer.BinaryTree.Height | src/app/pages/visualizer/binarytree/binarytree.ts:19-25 | 0 for no slots; otherwise h with 2^(h-1) ≤ slots < 2^h |
| MaxHeapVisualizer.Values | src/app/pages/visualizer/maxheap/maxheap.ts:57-59 | the values of the heap entries in array order |
| MaxHeapVisualizer.RootIsMax | src/app/pages/visualizer/maxheap/maxheap.ts:221-250 | in a max-heap the root is at least every entry |
| MaxHeapVisualizer.HeapRootDominates | src/app/pages/visualizer/maxheap/maxheap.ts:221-250 | the same, for all entries at once |
| MaxHeapVisualizer.TreeEdges | src/app/pages/visualizer/maxheap/maxheap.ts:330-342 | `updateEdges` draws n-1 edges for n entries |
| MaxHeapVisualizer.TreeEdgesAreParentLinks | src/app/pages/visualizer/maxheap/maxheap.ts:330-342 | an edge is drawn exactly from each entry's parent to each entry other than the root |
| MaxHeapVisualizer.Pick | src/app/pages/visualizer/maxheap/maxheap.ts:21-53 | the values at the positions a walk lists, in that order |
| MaxHeapVisualizer.PickPermutation | src/app/pages/visualizer/maxheap/maxheap.ts:21-53 | walks that list the same positions list the same values |
| MaxHeapVisualizer.WalkListsEveryValue | src/app/pages/visualizer/maxheap/maxheap.ts:21-53 | a walk listing every position once lists every value once |
| MaxHeapVisualizer.TraversalsArePermutations | src/app/pages/visualizer/maxheap/maxheap.ts:21-53 | preorder, inorder and postorder each list positions 0..n-1 once each |
| MaxHeapVisualizer.PickRange | src/app/pages/visualizer/maxheap/maxheap.ts:54-56 | listing positions in index order gives the array itself |
| MaxHeapVisualizer.Swapped | src/app/pages/visualizer/maxheap/maxheap.ts:266-268 | the two entries trade places and record their new positions; nothing else changes |
| MaxHeapVisualizer.SwappedKeepsValues | src/app/pages/visualizer/maxheap/maxheap.ts:266-268 | a swap keeps the same values |
| MaxHeapVisualizer.SiftUpStep | src/app/pages/visualizer/maxheap/maxheap.ts:222-226 | swapping a larger child with its parent keeps the sift-up invariant one level up |
| MaxHeapVisualizer.SiftUpDone | src/app/pages/visualizer/maxheap/maxheap.ts:222-229 | when the parent is not smaller (or the root is reached) the array is a max-heap |
| MaxHeapVisualizer.SiftDownStep | src/app/pages/visualizer/maxheap/maxheap.ts:237-244 | swapping with the largest child keeps the sift-down invariant one level down |
| MaxHeapVisualizer.SiftDownDone | src/app/pages/visualizer/maxheap/maxheap.ts:242-247 | when no child is larger the subtree is a max-heap |
| MaxHeapVisualizer.LargestOfFamily | src/app/pages/visualizer/maxheap/maxheap.ts:237-241 | the entry itself or a child, at least as large as each of them; strictly larger when it is a child, and the right child only when it beats the left |
| MaxHeapVisualizer.AppendStartsSiftUp | src/app/pages/visualizer/maxheap/maxheap.ts:186-190 | appending to a max-heap establishes the sift-up invariant at the new entry |
| MaxHeapVisualizer.SpliceValues | src/app/pages/visualizer/maxheap/maxheap.ts:210 | splicing out an entry removes exactly its value and keeps the values distinct |
| MaxHeapVisualizer.NoDuplicatesPermutation | src/app/pages/visualizer/maxheap/maxheap.ts:175 | rearranging distinct values keeps them distinct |
| MaxHeapVisualizer.MaxHeap.constructor | src/app/pages/visualizer/maxheap/maxheap.ts:74-80 | empty heap, input box and last inserted and deleted values |
| MaxHeapVisualizer.MaxHeap.Levelorder | src/app/pages/visualizer/maxheap/maxheap.ts:54-56 | one value per entry, in array order |
| MaxHeapVisualizer.MaxHeap.Preorder | src/app/pages/visualizer/maxheap/maxheap.ts:21-31 | the same values as level order; the root comes first and is the largest |
| MaxHeapVisualizer.MaxHeap.Inorder | src/app/pages/visualizer/maxheap/maxheap.ts:32-42 | the same values as level order |
| MaxHeapVisualizer.MaxHeap.Postorder | src/app/pages/visualizer/maxheap/maxheap.ts:43-53 | the same values as level order; the root comes last and is the largest |
| MaxHeapVisualizer.MaxHeap.Swap | src/app/pages/visualizer/maxheap/maxheap.ts:252-269 | the heap becomes the swapped array |
| MaxHeapVisualizer.MaxHeap.HeapifyUp | src/app/pages/visualizer/maxheap/maxheap.ts:221-232 | from the sift-up invariant the loop ends with a max-heap of the same values, and the edges are redrawn |
| MaxHeapVisualizer.MaxHeap.HeapifyDown | src/app/pages/visualizer/maxheap/maxheap.ts:234-250 | with the subtrees below ordered, the loop orders the subtree at idx and keeps the values |
| MaxHeapVisualizer.MaxHeap.UpdateEdges | src/app/pages/visualizer/maxheap/maxheap.ts:330-342 | the edges become exactly the parent links |
| MaxHeapVisualizer.MaxHeap.InsertNode | src/app/pages/visualizer/maxheap/maxheap.ts:172-194 | a blank box or a present value changes nothing; otherwise the value is added once, the heap stays a max-heap of distinct values, and it becomes the last inserted |
| MaxHeapVisualizer.MaxHeap.DeleteNode | src/app/pages/visualizer/maxheap/maxheap.ts:196-205 | a blank box or an absent value changes nothing; otherwise exactly that value goes, the heap stays valid, and it becomes the last deleted |
| MaxHeapVisualizer.MaxHeap.RemoveNode | src/app/pages/visualizer/maxheap/maxheap.ts:207-219 | removing the entry at idx leaves a valid max-heap of the other values |
| MaxHeapVisualizer.MaxHeap.Reindex | src/app/pages/visualizer/maxheap/maxheap.ts:212-214 | every entry records its position, and the values are unchanged |
| MaxHeapVisualizer.MaxHeap.Reheapify | src/app/pages/visualizer/maxheap/maxheap.ts:215-217 | sifting down from the last parent to the root makes a max-heap of the same values |
| MaxHeapVisualizer.MaxHeap.SearchNode | src/app/pages/visualizer/maxheap/maxheap.ts:271-308 | a blank box visits nothing; otherwise entries are visited in array order up to the first match |
| MaxHeapVisualizer.MaxHeap.Clear | src/app/pages/visualizer/maxheap/maxheap.ts:344-351 | no entries and no edges |
| BubblePasses.CompareAt | src/app/pages/visualizer/bubblesort/bubblesort.ts:124-127 | one comparison keeps the length, and swaps exactly when the left value is larger |
| BubblePasses.Compare | src/app/pages/visualizer/bubblesort/bubblesort.ts:123-128 | the recorded step: positions j and j+1, whether they swapped, and the array after |
| BubblePasses.AfterPass | src/app/pages/visualizer/bubblesort/bubblesort.ts:122-129 | a pass keeps the length |
| BubblePasses.PassTotal | src/app/pages/visualizer/bubblesort/bubblesort.ts:171 | the number of passes is n-1 (0 for an empty array) |
| BubblePasses.AfterPasses | src/app/pages/visualizer/bubblesort/bubblesort.ts:121-130 | the passes keep the length |
| BubblePasses.BubbleSorted | src/app/pages/visualizer/bubblesort/bubblesort.ts:171-184 | the sort keeps the length |
| BubblePasses.PassSteps | src/app/pages/visualizer/bubblesort/bubblesort.ts:122-129 | a pass over positions 0..j records j steps |
| BubblePasses.PassesNext | src/app/pages/visualizer/bubblesort/bubblesort.ts:121-130 | pass i+1 appends its steps to those of the first i passes, starting from their result |
| BubblePasses.PassStepsCompare | src/app/pages/visualizer/bubblesort/bubblesort.ts:122-129 | step k of a pass is comparison k on the array the k comparisons before it left |
| BubblePasses.PassStepsLast | src/app/pages/visualizer/bubblesort/bubblesort.ts:122-129 | the last snapshot of a pass is the array after it |
| BubblePasses.PassesLast | src/app/pages/visualizer/bubblesort/bubblesort.ts:121-130 | the last snapshot after i passes is the array after them |
| BubblePasses.TraceEndsSorted | src/app/pages/visualizer/bubblesort/bubblesort.ts:118-134 | replaying every recorded step ends on the sorted array |
| BubblePasses.CompareFacts | src/app/pages/visualizer/bubblesort/bubblesort.ts:124-127 | after a comparison the larger value sits at j+1, and nothing outside j, j+1 moves |
| BubblePasses.CompareKeepsValues | src/app/pages/visualizer/bubblesort/bubblesort.ts:124-127 | a comparison keeps the values |
| BubblePasses.SwapShape | src/app/pages/visualizer/bubblesort/bubblesort.ts:189-192 | a swapping comparison exchanges the two adjacent values |
| BubblePasses.SwapKeepsValues | src/app/pages/visualizer/bubblesort/bubblesort.ts:189-192 | exchanging two adjacent values keeps the values |
| BubblePasses.AfterPassKeepsValues | src/app/pages/visualizer/bubblesort/bubblesort.ts:122-129 | a pass keeps the values |
| BubblePasses.AfterPassesKeepValues | src/app/pages/visualizer/bubblesort/bubblesort.ts:121-130 | the passes keep the values |
| BubblePasses.AfterPassBubbles | src/app/pages/visualizer/bubblesort/bubblesort.ts:172-182 | a pass up to j leaves the largest of positions 0..j at j, and nothing after j moves |
| BubblePasses.BubbleStep | src/app/pages/visualizer/bubblesort/bubblesort.ts:172-182 | one more comparison carries the pass's maximum one position on |
| BubblePasses.AfterPassesSortSuffix | src/app/pages/visualizer/bubblesort/bubblesort.ts:171-184 | after i passes the last i positions hold the largest values, in order |
| BubblePasses.PassExtendsSortedSuffix | src/app/pages/visualizer/bubblesort/bubblesort.ts:172-183 | a pass grows the sorted suffix by one |
| BubblePasses.BubbleSortedSorts | src/app/pages/visualizer/bubblesort/bubblesort.ts:167-187 | the sort's result is sorted and a permutation of the input |
| BubblePasses.SortedFromStart | src/app/pages/visualizer/bubblesort/bubblesort.ts:171-185 | a suffix sorted from position 1, all of whose values dominate position 0, is the whole array sorted |
| BubblePasses.StepsOkAppend | src/app/pages/visualizer/bubblesort/bubblesort.ts:128 | well-formed steps stay well-formed when concatenated |
| BubblePasses.PassStepsOk | src/app/pages/visualizer/bubblesort/bubblesort.ts:122-129 | each step of a pass compares adjacent positions, and its snapshot is a permutation of the input |
| BubblePasses.PassesSteps | src/app/pages/visualizer/bubblesort/bubblesort.ts:121-130 | the same for all the passes |
| BubblePasses.TraceSteps | src/app/pages/visualizer/bubblesort/bubblesort.ts:118-130 | every recorded step compares adjacent positions, and its snapshot is a permutation of the input |
| BubblePasses.TraceLength | src/app/pages/visualizer/bubblesort/bubblesort.ts:121-130 | the step mode records n(n-1)/2 steps |
| BubblePasses.PassesLength | src/app/pages/visualizer/bubblesort/bubblesort.ts:121-130 | the first i passes record the sum of their comparisons |
| BubblePasses.PassCountClosed | src/app/pages/visualizer/bubblesort/bubblesort.ts:121-122 | the closed form of that sum |
| BubblePasses.PassCountAll | src/app/pages/visualizer/bubblesort/bubblesort.ts:121-122 | all n-1 passes make n(n-1)/2 comparisons |
| BubbleSortVisualizer.BubbleSort.constructor | src/app/pages/visualizer/bubblesort/bubblesort.ts:21-32 | no numbers, no steps, no sort running, 20 bars |
| BubbleSortVisualizer.BubbleSort.ResetArray | src/app/pages/visualizer/bubblesort/bubblesort.ts:55-59 | numBars fresh numbers, each 40 plus its draw, in 40..439 |
| BubbleSortVisualizer.BubbleSort.DrawHistogram | src/app/pages/visualizer/bubblesort/bubblesort.ts:68-91 | fresh bars whose heights follow the numbers |
| BubbleSortVisualizer.BubbleSort.Copy | src/app/pages/visualizer/bubblesort/bubblesort.ts:120 | a fresh array holding a copy of the numbers |
| BubbleSortVisualizer.BubbleSort.PrepareSteps | src/app/pages/visualizer/bubblesort/bubblesort.ts:118-134 | the recorded steps are the trace of the sort on the numbers; step mode is on and replay starts at 0 |
| BubbleSortVisualizer.BubbleSort.RecordSteps | src/app/pages/visualizer/bubblesort/bubblesort.ts:119-130 | the nested loops record exactly the trace |
| BubbleSortVisualizer.BubbleSort.RecordPass | src/app/pages/visualizer/bubblesort/bubblesort.ts:122-129 | the inner loop records one pass's steps and leaves the array after the pass |
| BubbleSortVisualizer.BubbleSort.NextStep | src/app/pages/visualizer/bubblesort/bubblesort.ts:136-152 | outside step mode or past the end nothing changes; otherwise the next snapshot is shown, and step mode ends after the last one |
| BubbleSortVisualizer.BubbleSort.PrevStep | src/app/pages/visualizer/bubblesort/bubblesort.ts:154-158 | outside step mode or at the start nothing changes; otherwise the snapshot before the current one is shown, the cursor drops by one, and step mode stays on with `stepSorting` as it was (both end only if the cursor lands past the last step) |
| BubbleSortVisualizer.BubbleSort.StartStepSort | src/app/pages/visualizer/bubblesort/bubblesort.ts:160-164 | records the trace and shows its first snapshot; with more than one step both `stepMode` and `stepSorting` are on, with exactly one step both are off, and with none the array is unchanged and both stay on |
| BubbleSortVisualizer.BubbleSort.Swap | src/app/pages/visualizer/bubblesort/bubblesort.ts:189-192 | the two numbers, and their bars, are exchanged in place |
| BubbleSortVisualizer.BubbleSort.BubbleSort | src/app/pages/visualizer/bubblesort/bubblesort.ts:167-187 | ignored while a sort runs; otherwise sorts the numbers in place into a sorted permutation, the same array the step mode ends on |
| BubbleSortVisualizer.BubbleSort.SortAllPasses | src/app/pages/visualizer/bubblesort/bubblesort.ts:171-184 | the outer loop leaves the sorted array |
| BubbleSortVisualizer.BubbleSort.SortPass | src/app/pages/visualizer/bubblesort/bubblesort.ts:172-182 | the inner loop performs one pass in place |
| BSTShape.InsertBST | src/app/pages/visualizer/binarysearchtree/binarysearchtree.ts:165-181 | insertion keeps the root and adds exactly one node and the new value |
| BSTShape.InsertIds | src/app/pages/visualizer/binarysearchtree/binarysearchtree.ts:165-181 | insertion adds exactly the new node object and links no object twice |
| BSTShape.InsertKeepsOrder | src/app/pages/visualizer/binarysearchtree/binarysearchtree.ts:165-181 | inserting an absent value keeps the search order |
| BSTShape.InsertedIsLeaf | src/app/pages/visualizer/binarysearchtree/binarysearchtree.ts:165-181 | the new value is found as a leaf holding the new node object |
| BSTShape.Lookup | src/app/pages/visualizer/binarysearchtree/binarysearchtree.ts:530-537 | `findNode`: a node it returns holds the value and lies in the tree |
| BSTShape.LookupFinds | src/app/pages/visualizer/binarysearchtree/binarysearchtree.ts:530-537 | in an ordered tree it finds a node exactly when the value is in the tree |
| BSTShape.LookupInTree | src/app/pages/visualizer/binarysearchtree/binarysearchtree.ts:530-537 | the node found is a subtree of the tree |
| BSTShape.Descent | src/app/pages/visualizer/binarysearchtree/binarysearchtree.ts:309-332 | the searched path: no longer than the height, and empty only for an empty tree |
| BSTShape.DescentEndsAtMatch | src/app/pages/visualizer/binarysearchtree/binarysearchtree.ts:322-330 | when the value is present the path ends on the node holding it |
| BSTShape.Leftmost | src/app/pages/visualizer/binarysearchtree/binarysearchtree.ts:292-296 | `minNode`: a node with no left child, holding a value of the subtree |
| BSTShape.LeftmostInTree | src/app/pages/visualizer/binarysearchtree/binarysearchtree.ts:292-296 | that node belongs to the subtree |
| BSTShape.LeftmostIsMin | src/app/pages/visualizer/binarysearchtree/binarysearchtree.ts:292-296 | in an ordered subtree it holds the smallest value |
| BSTShape.Unlink | src/app/pages/visualizer/binarysearchtree/binarysearchtree.ts:226-289 | taking a node out of its place leaves one node fewer |
| BSTShape.RemoveLeftmost | src/app/pages/visualizer/binarysearchtree/binarysearchtree.ts:243 | removing the successor leaves one node fewer |
| BSTShape.DetachedId | src/app/pages/visualizer/binarysearchtree/binarysearchtree.ts:226-289 | the node object that leaves the tree: the node itself with at most one child, otherwise the successor |
| BSTShape.DetachedInTree | src/app/pages/visualizer/binarysearchtree/binarysearchtree.ts:226-289 | that object belongs to the subtree |
| BSTShape.RemoveAt | src/app/pages/visualizer/binarysearchtree/binarysearchtree.ts:208-290 | deleting an absent value changes nothing; a present one leaves one node fewer |
| BSTShape.RemoveLeftmostKeepsOrder | src/app/pages/visualizer/binarysearchtree/binarysearchtree.ts:243 | removing the leftmost node removes exactly its value and keeps the order |
| BSTShape.UnlinkKeepsOrder | src/app/pages/visualizer/binarysearchtree/binarysearchtree.ts:226-289 | removing a node removes exactly its value and keeps the order |
| BSTShape.PromoteSuccessor | src/app/pages/visualizer/binarysearchtree/binarysearchtree.ts:236-245 | copying the successor's value up and removing the successor keeps the order and removes only the old value |
| BSTShape.RemoveAtKeepsOrder | src/app/pages/visualizer/binarysearchtree/binarysearchtree.ts:208-290 | deletion removes exactly the value and keeps the search order |
| BSTShape.RemoveLeftmostIds | src/app/pages/visualizer/binarysearchtree/binarysearchtree.ts:243 | removing the successor removes exactly its node object |
| BSTShape.UnlinkIds | src/app/pages/visualizer/binarysearchtree/binarysearchtree.ts:226-289 | removing a node removes exactly the detached node object |
| BSTShape.RemoveAtIds | src/app/pages/visualizer/binarysearchtree/binarysearchtree.ts:208-290 | deletion removes exactly the detached node object and links no object twice |
| BSTShape.HeightBounds | src/app/pages/visualizer/binarysearchtree/binarysearchtree.ts:363-369 | height ≤ nodes < 2^height |
| BSTShape.PowMonotone | src/app/pages/visualizer/binarysearchtree/binarysearchtree.ts:366 | powers of two grow with the exponent |
| BSTShape.WalksSameValues | src/app/pages/visualizer/binarysearchtree/binarysearchtree.ts:371-405 | preorder, inorder and postorder list the same values |
| BSTShape.InorderMembers | src/app/pages/visualizer/binarysearchtree/binarysearchtree.ts:383-393 | inorder lists exactly the tree's values, one per node |
| BSTShape.OrderedIffInorderIncreasing | src/app/pages/visualizer/binarysearchtree/binarysearchtree.ts:383-393 | the tree is ordered exactly when its inorder walk is strictly increasing |
| BSTShape.IncreasingJoin | src/app/pages/visualizer/binarysearchtree/binarysearchtree.ts:387-389 | increasing left part, root, increasing right part around it: increasing |
| BSTShape.IncreasingSplit | src/app/pages/visualizer/binarysearchtree/binarysearchtree.ts:387-389 | conversely, the parts of an increasing walk are increasing and lie on either side of the root |
| BSTShape.Children | src/app/pages/visualizer/binarysearchtree/binarysearchtree.ts:414-415 | the children queued are nodes holding all the node's other values |
| BSTShape.LevelWalkStep | src/app/pages/visualizer/binarysearchtree/binarysearchtree.ts:412-415 | one round lists the front value and queues its children; the queued nodes shrink |
| BSTShape.LevelWalkValues | src/app/pages/visualizer/binarysearchtree/binarysearchtree.ts:407-418 | the walk of a queue lists exactly its values, one per node |
| BSTShape.LevelorderLists | src/app/pages/visualizer/binarysearchtree/binarysearchtree.ts:407-418 | level order lists exactly the tree's values, one per node, the root's first |
| BSTShape.Targets | src/app/pages/visualizer/binarysearchtree/binarysearchtree.ts:518-528 | the child end of each edge, in order |
| BSTShape.EdgeCount | src/app/pages/visualizer/binarysearchtree/binarysearchtree.ts:518-528 | a nonempty tree draws one edge fewer than it has nodes |
| BSTShape.EdgesReachEachChildOnce | src/app/pages/visualizer/binarysearchtree/binarysearchtree.ts:518-528 | every node but the root is the child end of exactly one edge, and every edge starts at a node of the tree |
| BSTShape.Without | src/app/pages/visualizer/binarysearchtree/binarysearchtree.ts:224 | `filter(n => n !== node)`: removes exactly that object, and from a duplicate-free list exactly one entry |
| BSTShape.TrackedAfterRemovalAsWritten | src/app/pages/visualizer/binarysearchtree/binarysearchtree.ts:224-243 | the node list after `removeBSTNode` as written: the node is filtered out, and also the successor when there are two children |
| BSTShape.TrackedAfterRemoval | src/app/pages/visualizer/binarysearchtree/binarysearchtree.ts:224-243 | the node list with only the detached object filtered out |
| BSTShape.RemovalKeepsTracking | src/app/pages/visualizer/binarysearchtree/binarysearchtree.ts:220-290 | with that filter, the node list still holds exactly the tree's node objects, one per node |
| BSTShape.SizeUndercount | src/app/pages/visualizer/binarysearchtree/binarysearchtree.ts:224-243 | as written, deleting a node with two children leaves the list one short of the tree, missing the node that stays |
| BSTShape.SizeUndercountExample | src/app/pages/visualizer/binarysearchtree/binarysearchtree.ts:220-290 | root 2 with children 1 and 3, delete 2: the tree keeps two nodes, and the list as written keeps one |
| BinarySearchTreeVisualizer.BinarySearchTree.constructor | src/app/pages/visualizer/binarysearchtree/binarysearchtree.ts:37-45 | empty tree, node list, edges and input box |
| BinarySearchTreeVisualizer.BinarySearchTree.FindNode | src/app/pages/visualizer/binarysearchtree/binarysearchtree.ts:530-537 | the loop returns the node the search order leads to, or none |
| BinarySearchTreeVisualizer.BinarySearchTree.MinNode | src/app/pages/visualizer/binarysearchtree/binarysearchtree.ts:292-296 | the loop returns the leftmost node |
| BinarySearchTreeVisualizer.BinarySearchTree.InsertNode | src/app/pages/visualizer/binarysearchtree/binarysearchtree.ts:137-163 | a blank box, text that is not a number, or a present value changes nothing; otherwise the new tree is exactly `InsertBST` of the old one (a lone leaf when empty), the new node object is appended to the node list, the value set gains the value, the size grows by one, and the tree stays ordered and consistent with its node list and edges |
| BinarySearchTreeVisualizer.BinarySearchTree.DeleteNode | src/app/pages/visualizer/binarysearchtree/binarysearchtree.ts:208-218 | a blank box, text that is not a number, or an absent value changes nothing; otherwise the new tree is exactly `RemoveAt` of the old one (so no other link changes), the node list loses exactly the detached node object (the corrected filter), the value set loses the value, the size drops by one, and the invariant holds |
| BinarySearchTreeVisualizer.BinarySearchTree.RemoveBSTNode | src/app/pages/visualizer/binarysearchtree/binarysearchtree.ts:220-290 | the tree becomes the deletion of the node's value, and the node list loses exactly the detached object (the corrected filter), so it stays consistent |
| BinarySearchTreeVisualizer.BinarySearchTree.UpdateEdges | src/app/pages/visualizer/binarysearchtree/binarysearchtree.ts:518-528 | the edges become exactly those of the tree |
| BinarySearchTreeVisualizer.BinarySearchTree.Traverse | src/app/pages/visualizer/binarysearchtree/binarysearchtree.ts:520-526 | the walk appends a subtree's edges in preorder |
| BinarySearchTreeVisualizer.BinarySearchTree.SearchNode | src/app/pages/visualizer/binarysearchtree/binarysearchtree.ts:297-343 | a blank box or text that is not a number visits nothing; otherwise it visits the descent path and finds the node exactly when the value is in the tree |
| BinarySearchTreeVisualizer.BinarySearchTree.Clear | src/app/pages/visualizer/binarysearchtree/binarysearchtree.ts:345-353 | empty tree, node list and edges |
| BinarySearchTreeVisualizer.BinarySearchTree.Root | src/app/pages/visualizer/binarysearchtree/binarysearchtree.ts:355-357 | none exactly for an empty tree; otherwise the root value, the first value of the preorder walk |
| BinarySearchTreeVisualizer.BinarySearchTree.Size | src/app/pages/visualizer/binarysearchtree/binarysearchtree.ts:359-361 | the length of the node list is the number of nodes in the tree |
| BinarySearchTreeVisualizer.BinarySearchTree.Height | src/app/pages/visualizer/binarysearchtree/binarysearchtree.ts:363-369 | height ≤ nodes < 2^height |
| BinarySearchTreeVisualizer.BinarySearchTree.Preorder | src/app/pages/visualizer/binarysearchtree/binarysearchtree.ts:371-381 | the same values as inorder, the root's first |
| BinarySearchTreeVisualizer.BinarySearchTree.Inorder | src/app/pages/visualizer/binarysearchtree/binarysearchtree.ts:383-393 | every value of the tree once, strictly increasing |
| BinarySearchTreeVisualizer.BinarySearchTree.Postorder | src/app/pages/visualizer/binarysearchtree/binarysearchtree.ts:395-405 | the same values as inorder, the root's last |
| BinarySearchTreeVisualizer.BinarySearchTree.Levelorder | src/app/pages/visualizer/binarysearchtree/binarysearchtree.ts:407-418 | the queue loop lists exactly the tree's values, one per node |

## Left out

- The drawing is not modelled: Matter.js bodies, positions, physics, canvas dragging, zooming and resizing. The BST's `getInsertPosition` and the heap's `getNodePosition` and `updateNodePositions` compute positions only, so they are left out too. Edges are kept by identity or slot, not as pairs of bodies.
- Animation timing is not modelled: timers, `await`, `requestAnimationFrame` and Angular zones. Each handler is modelled as if it ran to completion without interleaving. After a pop or a dequeue, the source refreshes the highlight once the removal animation ends. The model leaves that refresh to a separate call of `UpdateTopHighlight` or `UpdateFrontHighlight`.
- The `searching`, `searchMessage` and `searchIndex` flags are not modelled. Neither are colours set during a search. A search returns the positions it visits and what it finds.
- Text is simplified in three ways:
  - JavaScript `Number()` coercion of the BST input is not modelled. The box is already `Blank`, `NotANumber` or an integer, so fractions, exponents and hexadecimal text are out.
  - Heap values are integers. The source keeps them as strings: it compares them as strings for duplicates and search, and with `Number()` for ordering.
  - The getters' `join(', ')` strings are sequences. 'null' from the BST's `root()` is `None`.
- BubbleSortVisualizer.BubbleSort.ResetArray: `Math.random()` becomes the `draws` parameter.
- `setSpeed`, `sleep`, `animateSwap` and `setBarColor` are left out. They only change delays and colours.
- BST nodes are values with identities, not mutable objects. There are no parent links, and no value is rewritten in place in a node that other references share. `RemoveBSTNode` reaches the node again by its value, which is sound because the values of an ordered tree are distinct.
- The heap and the BST each keep a separate `nodeBodies` list that mirrors their entries' bodies. It is not modelled. The finding below notes that the BST's removal drops a surviving node's body from it.
- The drawing helpers `clearBars` and `overrideRenderLabels`, and the position arithmetic of the array tree's insertion, are left out. They only draw.
- BinarySearchTreeVisualizer.BinarySearchTree.Levelorder: states membership and length, not the multiset of values. Since the values are distinct this loses nothing, but the multiset is not stated.
- BSTShape.LevelorderLists: the same, membership and length rather than a multiset.

## Findings

| source | as written | input that shows it | evidently intended | confidence | as-written member | corrected member |
|---|---|---|---|---|---|---|
| src/app/pages/visualizer/binarysearchtree/binarysearchtree.ts:224-243 | `removeBSTNode` filters the node out of `bstNodes` before it tells the cases apart. With two children, the node stays in the tree with its successor's value, and the recursive call filters the successor out as well. `size()` (lines 359-361) then reports one node fewer than the tree holds, and the surviving node's body is also dropped from `nodeBodies` and the world. | insert 2, 1, 3; delete 2: the tree holds 3 over 1, but `size()` is 1 | only the node object that actually leaves the tree is filtered out, so `size()` equals the number of nodes | high (not executed) | BSTShape.TrackedAfterRemovalAsWritten, BSTShape.SizeUndercount, BSTShape.SizeUndercountExample | BSTShape.TrackedAfterRemoval, BSTShape.RemovalKeepsTracking, BinarySearchTreeVisualizer.BinarySearchTree.RemoveBSTNode |
