# pycolo core in Dafny

A model of three parts of pycolo, a CoAP (RFC 7252) library, with proofs about them.

- **The option value codec** (`pycolo/coap/Option.py`). An `Option` has a number and a raw byte value. Callers read the value as:
  - a minimal big-endian integer, using Java `int` semantics;
  - UTF-8 text;
  - raw bytes.

  The module also covers the class helpers `fromNumber`, `split`, `join` and `hex`, and the `equals`, `getLength` and `isDefaultValue` queries.
- **The endpoint address** (`pycolo/coap/EndpointAddress.py`). An immutable address-and-port value with its three constructors and its text rendering.
- **The resource tree** (`pycolo/endpoint/Resource.py`). Resources are held in a tree through a parent pointer and a child map keyed by name. Each resource keeps a running count of the resources below it and a set of CoRE Link Format (RFC 6690) attributes. The model covers:
  - resolving paths (`getResource`) and rendering them (`getPath`, `compareTo`);
  - adding a resource under a compound path, which creates hidden intermediate resources or replaces an existing one;
  - removing a resource;
  - the two counts;
  - the sorted view of the children;
  - the attribute operations behind title, observable, size estimate and hidden.

## Layout

| file | module | contents |
|---|---|---|
| wrappers.dfy | `Wrappers` | `Option`, `Result` |
| text.dfy | `Text` | Java string helpers: `indexOf`, splitting and joining on a character, decimal text, `String.compareTo` |
| utf8.dfy | `Utf8` | UTF-8 encoding and decoding of text, with their round trip |
| option_codec.dfy | `OptionCodec` | the `Option` class |
| endpoint_address.dfy | `Endpoint` | the `EndpointAddress` class |
| resource_forest.dfy | `ResourceForest` | resources as nodes of an arena, the tree invariant, path resolution and rendering |
| tree_updates.dfy | `TreeUpdates` | attaching, detaching and replacing a node, each proved to keep the invariant |
| tree_walks.dfy, add_steps.dfy | `TreeWalks`, `AddSteps` | how these updates change path resolution, step by step through `add` |
| tree_order.dfy | `TreeOrder` | `getPath` as a loop, and `getSubResources` as a sorted set |
| tree_counts.dfy | `TreeCounts` | `subResourceCount`, `totalSubResourceCount` |
| attributes.dfy | `LinkAttributes` | the attribute set of a resource |
| resource_tree.dfy | `ResourceTree` | class `ResourceHeap`: the resources, updated in place |
| resource_findings.dfy | `ResourceFindings` | the two tree operations as written, with inputs that break the tree |

**Resources live in an arena.** Every `Resource` object is a node in a map from identifiers to nodes (`ResourceHeap.nodes`). A method that pycolo runs on a resource `self` takes that resource's identifier.

**The tree invariant** is `ResourceForest.Valid`. A ghost map gives every node the set of its ancestors, and the invariant requires:
- parent pointers and child maps agree;
- every child is filed under its own name, which is one non-empty path segment;
- every node has finitely many ancestors;
- every count equals the number of nodes below.

The methods of `ResourceHeap` keep this invariant.

## Model

| member | source | states |
|---|---|---|
| OptionCodec.EncodeInt | pycolo/coap/Option.py:149-171 | 1 to 4 bytes; exactly `[0]` for 0; otherwise no leading zero byte; the big-endian value of the bytes is the value modulo 2^32 |
| OptionCodec.SkipZeroBytes | pycolo/coap/Option.py:161-167 | the counting loop stops at the first non-zero byte of the 4-byte word: all bytes before it are zero, and `neededBytes` is one more than `i` |
| OptionCodec.CopyTail | pycolo/coap/Option.py:168-171 | the copying loop yields the last `neededBytes` bytes of the word |
| OptionCodec.SetIntValue | pycolo/coap/Option.py:149-171 | `setIntValue` computes exactly `EncodeInt` |
| OptionCodec.DecodeInt | pycolo/coap/Option.py:131-147 | a missing value is an error; a value longer than 4 bytes overflows the buffer; otherwise the result is congruent modulo 2^32 to the big-endian value of the bytes |
| OptionCodec.GetIntValue | pycolo/coap/Option.py:131-147 | the zero-padding and reading loops of `getIntValue` compute exactly `DecodeInt` |
| OptionCodec.IntRoundTrip | pycolo/coap/Option.py:131-171 | reading back an integer just set gives that integer, for every Java `int` |
| OptionCodec.EncodeIntMinimal | pycolo/coap/Option.py:156-171 | a non-zero value takes exactly as many bytes as it needs: `256^(n-1) <= v mod 2^32 < 256^n` |
| OptionCodec.EncodeIntExamples | tests/TestOption.py:27-38 | 255 takes one byte and 256 two, the cases the test checks; the model adds its own examples: 0 encodes as one zero byte, 65535 takes two bytes, and 2^24 and -1 take four |
| OptionCodec.GetStringValue | pycolo/coap/Option.py:173-183 | fails exactly when there is no value; bytes that decode as UTF-8 read as the decoded string |
| OptionCodec.ByNumber | pycolo/coap/Option.py:27-29 | `Option(nr)` has the number, no value, length 0, and neither string nor integer reading succeeds |
| OptionCodec.FromBytes | pycolo/coap/Option.py:40-43 | `Option(raw, nr)` keeps the number and the bytes; a value of at most 4 bytes reads as an integer |
| OptionCodec.FromString | pycolo/coap/Option.py:46-55 | `Option(str, nr)` reads back as the same string |
| OptionCodec.FromInt | pycolo/coap/Option.py:58-67 | `Option(int, nr)` reads back as the same integer and is 1 to 4 bytes long |
| OptionCodec.FromNumber | pycolo/coap/Option.py:69-82 | an option with the number; a `BlockOption` exactly for BLOCK1 and BLOCK2, otherwise a plain option with no value; a `BlockOption`'s initial value is taken to be absent |
| OptionCodec.GetLength | pycolo/coap/Option.py:203-205 | zero exactly when the value is absent or empty |
| OptionCodec.Equals | pycolo/coap/Option.py:208-224 | true exactly for the same object or an option of the same class, number and a present value; `NoValue` exactly when class and number agree but either value is absent, as `getRawValue` (line 122) raises; object identity is a parameter |
| OptionCodec.IsDefaultValue | pycolo/coap/Option.py:277-284 | default exactly for a Max-Age value that reads as 60 or a Token of length 0; a Max-Age value that cannot be read passes its error on; false for every other number |
| OptionCodec.MaxAgeDefault | pycolo/coap/Option.py:277-284 | a Max-Age option built from `v` is default exactly when `v` is 60 |
| OptionCodec.SplitSpec | pycolo/coap/Option.py:84-96 | no string gives no options; otherwise one string option per non-empty piece between delimiters, in order |
| OptionCodec.SplitOptions | pycolo/coap/Option.py:84-96 | the loop of `split` builds exactly `SplitSpec` |
| OptionCodec.JoinSpec | pycolo/coap/Option.py:98-107 | no list gives ""; the join fails exactly when some option has no value; otherwise each value is preceded by the delimiter |
| OptionCodec.JoinOptions | pycolo/coap/Option.py:98-107 | the loop of `join` builds exactly `JoinSpec` |
| OptionCodec.JoinSplit | pycolo/coap/Option.py:84-107 | joining what `split` gives is the string's non-empty pieces, each preceded by the delimiter |
| OptionCodec.JoinSplitRoundTrip | pycolo/coap/Option.py:84-107 | a delimiter-prefixed path of non-empty segments survives `split` followed by `join` |
| OptionCodec.SplitJoinRoundTrip | pycolo/coap/Option.py:84-107 | string options with non-empty, delimiter-free values survive `join` followed by `split` |
| OptionCodec.SplitDropsEmptyPieces | pycolo/coap/Option.py:89-95 | a doubled delimiter yields no empty option ("a//b" gives "a", "b") |
| OptionCodec.HexBytes | pycolo/coap/Option.py:226-237 | byte k renders at positions 3k and 3k+1 as its two upper-case hex digits (`HexByte`), a single space follows every byte but the last, and the text has `3n-1` characters |
| OptionCodec.HexRoundTrip | pycolo/coap/Option.py:226-237 | the bytes can be read back from their hex rendering |
| OptionCodec.HexString | pycolo/coap/Option.py:226-237 | the loop of `hex` (with a space only between bytes) builds "--" for an absent or empty value, otherwise `HexBytes` |
| OptionCodec.HexAsWrittenTrailingSpace | pycolo/coap/Option.py:229-235 | with the loop stopped after the last byte, the as-written rendering of a non-empty value is the intended one plus a trailing space |
| Utf8.DecodeEncode | pycolo/coap/Option.py:46-55 | decoding the UTF-8 encoding of a string gives the string back |
| Utf8.EncodeInjective | pycolo/coap/Option.py:186-192 | different strings give different byte values |
| Endpoint.FromAddress | pycolo/coap/EndpointAddress.py:20-26 | the address is kept and the port is the default CoAP port |
| Endpoint.FromAddressAndPort | pycolo/coap/EndpointAddress.py:28-36 | address and port are kept unchanged |
| Endpoint.FromUri | pycolo/coap/EndpointAddress.py:38-51 | the address is the outcome of resolving the host, absent when resolution fails; the URI's port is used unless it is -1, then the default port |
| Endpoint.ToString | pycolo/coap/EndpointAddress.py:53-58 | fails exactly when there is no address; otherwise the port can be read back after the last ":", and the host can be read back, bracketed for IPv6 |
| ResourceForest.Root | pycolo/endpoint/Resource.py:290-292 | climbing parents ends at a node without a parent that is the node itself or one of its ancestors |
| ResourceForest.Chain | pycolo/endpoint/Resource.py:63-72 | the names from the root down: one more than the ancestors, ending with the node's name, every name below the root one segment |
| ResourceForest.CompareTo | pycolo/endpoint/Resource.py:395-397 | zero exactly when the paths are equal, and antisymmetric |
| ResourceForest.SplitFirst | pycolo/endpoint/Resource.py:295-303 | the head has no "/", and head, "/" and tail concatenate back to the path; a relative path has a relative tail |
| ResourceForest.Locate | pycolo/endpoint/Resource.py:304-310 | the deepest node the segments lead to, how many segments that took, and that the next segment is missing there |
| ResourceForest.GetResource | pycolo/endpoint/Resource.py:271-310 | no path gives the node itself; with `last` there is always a result; the result is in the same tree; a relative path never leads above the start |
| ResourceForest.GetResourceSegments | pycolo/endpoint/Resource.py:295-310 | a relative path resolves like following the child links by name; on a miss, `last` gives the deepest node reached, otherwise None |
| ResourceForest.WalkChain | pycolo/endpoint/Resource.py:57-72 | following the names below the root leads back to the node |
| ResourceForest.PathRoundTrip | pycolo/endpoint/Resource.py:57-72 | when the root is unnamed, resolving a node's path from anywhere in its tree finds the node |
| TreeOrder.GetPath | pycolo/endpoint/Resource.py:57-72 | the loop that prepends ancestor names builds the path: "name/" for a root, otherwise the root-down names joined by "/" |
| TreeOrder.ChildPath | pycolo/endpoint/Resource.py:57-72 | a child's path is its parent's path, "/" and its name |
| TreeOrder.SiblingOrder | pycolo/endpoint/Resource.py:395-397 | siblings compare as their names, and two siblings have the same path only if they are the same resource |
| TreeOrder.InsertByPath | pycolo/endpoint/Resource.py:265-268 | adding to a path-ordered set keeps it ordered; a resource whose path is already present is not added, and any other is added |
| TreeOrder.GetSubResources | pycolo/endpoint/Resource.py:258-269 | exactly the children, ordered by path, without repetition |
| TreeOrder.SortedDistinct | pycolo/endpoint/Resource.py:258-269 | a path-ordered sequence holds no resource twice |
| TreeCounts.ChildCount | pycolo/endpoint/Resource.py:244-249 | the nodes that name a node as parent are exactly the values of its child map, and there are as many as the map has entries |
| TreeCounts.SubResourceCount | pycolo/endpoint/Resource.py:244-249 | the number of direct children |
| TreeCounts.TotalSubResourceCount | pycolo/endpoint/Resource.py:251-256 | the number of resources anywhere below, never fewer than the direct children |
| TreeUpdates.Bump | pycolo/endpoint/Resource.py:363-367 | the count of each node in the climbed set moves by `delta`, and no other count changes |
| TreeUpdates.AttachValid | pycolo/endpoint/Resource.py:360-367 | attaching a detached, childless resource and raising the counts above it by one keeps the tree valid |
| TreeUpdates.DetachValid | pycolo/endpoint/Resource.py:369-378 | unlinking a resource and lowering the counts above it by the size of its subtree keeps the tree valid |
| TreeUpdates.DetachLinks | pycolo/endpoint/Resource.py:372-378 | after removal, the parent no longer files the resource; the resource has no parent but keeps its children and count |
| TreeUpdates.DetachTotals | pycolo/endpoint/Resource.py:374-377 | every former ancestor loses exactly the size of the removed subtree; every other resource is unchanged |
| TreeUpdates.DetachUnresolvable | pycolo/endpoint/Resource.py:372-373 | after removal, the resource's name no longer resolves from its former parent |
| TreeUpdates.ReplaceValid | pycolo/endpoint/Resource.py:335-343 | a resource taking another's place, children and count keeps the tree valid |
| TreeWalks.ReplaceRedirectsWalk | pycolo/endpoint/Resource.py:335-343 | after a replace, a path that led to the replaced resource leads to the new one |
| TreeWalks.NewChildExtendsWalk | pycolo/endpoint/Resource.py:349-358 | a new hidden intermediate resource is reached by the path to its parent followed by its own name |
| TreeWalks.RenameDetached | pycolo/endpoint/Resource.py:81-86 | renaming a resource without a parent keeps the tree valid |
| AddSteps.StripSlashes | pycolo/endpoint/Resource.py:318-321 | removes exactly the leading "/" characters of the name |
| AddSteps.AddPlan | pycolo/endpoint/Resource.py:323-335 | `getResource(name, true)` finds the deepest existing resource on the path; when the whole path exists it can be replaced |
| AddSteps.WalkedToResolves | pycolo/endpoint/Resource.py:335-361 | once `add` has placed the resource at the end of the path, the path resolves to it |
| LinkAttributes.GetAttributes | pycolo/endpoint/Resource.py:96-107 | the loop collects exactly the attributes with the given name, in order |
| LinkAttributes.NamedMembers | pycolo/endpoint/Resource.py:96-107 | an attribute is collected exactly when it is present and has the given name |
| LinkAttributes.Remove | pycolo/endpoint/Resource.py:132-133 | removing an attribute reports whether it was present, and keeps every other attribute |
| LinkAttributes.ClearNamed | pycolo/endpoint/Resource.py:119-134 | the two loops remove exactly the attributes with the given name, keeping the others in order, and report whether there was one |
| LinkAttributes.DropNamed | pycolo/endpoint/Resource.py:119-134 | removing the collected attributes one by one is removing every attribute with the name |
| LinkAttributes.AddAttribute | pycolo/endpoint/Resource.py:109-117 | adding reports whether the attribute was new, and the set afterwards holds exactly the old attributes and the new one |
| LinkAttributes.WithoutKeepsOthers | pycolo/endpoint/Resource.py:109-117 | adding an attribute leaves the attributes of every other name as they were |
| LinkAttributes.GetTitle | pycolo/endpoint/Resource.py:136-142 | a title found is a title attribute present; without a title attribute there is none |
| LinkAttributes.SetTitle | pycolo/endpoint/Resource.py:144-150 | afterwards the one title is the new one, and the attributes of other names are unchanged |
| LinkAttributes.WithoutIsFree | pycolo/endpoint/Resource.py:119-134 | after clearing a name none of it remains, and clearing again changes nothing |
| LinkAttributes.IsObservable | pycolo/endpoint/Resource.py:212-219 | true exactly when an "obs" attribute is present |
| LinkAttributes.SetObservable | pycolo/endpoint/Resource.py:221-229 | afterwards the resource is observable exactly as asked, and the attributes of other names are unchanged |
| LinkAttributes.GetMaximumSizeEstimate | pycolo/endpoint/Resource.py:197-203 | -1 without an "sz" attribute; any other result is the value of an "sz" attribute present; a single estimate `v` reads as `v` |
| LinkAttributes.SizeEstimateReadsBack | pycolo/endpoint/Resource.py:197-210 | an estimate set on a resource without one reads back unchanged |
| ResourceTree.ResourceHeap.NewResource | pycolo/endpoint/Resource.py:42-55 | a new resource with the name and hidden flag as given, no parent, children or attributes, and count 0; nothing else changes |
| ResourceTree.ResourceHeap.AdjustCounts | pycolo/endpoint/Resource.py:363-367 | the climbing loop moves the count of the node and of every node above it by `delta`; nothing else changes |
| ResourceTree.ResourceHeap.AttachLeaf | pycolo/endpoint/Resource.py:360-367 | the resource is filed under its name with the new parent, the counts above rise by one, and the tree stays valid |
| ResourceTree.ResourceHeap.ReplaceWith | pycolo/endpoint/Resource.py:335-343 | the resource takes the old one's place, children and count; the tree stays valid |
| ResourceTree.ResourceHeap.Rename | pycolo/endpoint/Resource.py:81-86 | only the name changes, and the tree stays valid |
| ResourceTree.ResourceHeap.AttachHidden | pycolo/endpoint/Resource.py:349-358 | a new hidden resource of the parent's kind is attached under the segment, and the counts above it rise by one |
| ResourceTree.ResourceHeap.Add | pycolo/endpoint/Resource.py:312-367 | no resource raises and changes nothing; otherwise no resource is lost, every resource created is hidden, the tree stays valid, the resource's stripped name resolves to it from `self`, and the new tree is exactly `AddOutcome` of the old one: in the replace case the resource takes the found node's place, and in the split case the tree grows one hidden node per missing middle segment while no old node but the resource changes parent, no old node but the deepest one found changes children, that node gains exactly the first missing segment, and every new node is hidden, has no attributes and has exactly one child |
| ResourceTree.ResourceHeap.Place | pycolo/endpoint/Resource.py:323-361 | once the name is stripped, the tree stays valid, the name resolves to the resource, and the new tree is `AddOutcome` of the tree before stripping |
| ResourceTree.ResourceHeap.PlaceReplace | pycolo/endpoint/Resource.py:335-343 | when every segment resolves, the resource takes the place of the node found, which is the replace case of `AddOutcome` |
| ResourceTree.ResourceHeap.PlaceSplit | pycolo/endpoint/Resource.py:344-361 | when a segment is missing, the tree grows as the split case of `AddOutcome` says, including its frame `SplitFrame` |
| ResourceTree.ResourceHeap.SplitCompound | pycolo/endpoint/Resource.py:344-361 | the resource, renamed to the last segment, is filed at the end of the path; every old node keeps its labels and child links, and one new node of the deepest found node's kind stands at each missing prefix; no old node but the resource changes parent, no old node but the deepest one found changes children, that node gains exactly the first missing segment, and each new node is hidden, has no attributes and has exactly one child (`SplitFrame`) |
| ResourceTree.ResourceHeap.BeginSplit | pycolo/endpoint/Resource.py:347 | the resource takes the last segment as its name and nothing else changes, so the frame of the split starts empty |
| ResourceTree.ResourceHeap.InsertMiddle | pycolo/endpoint/Resource.py:348-358 | the loop over the middle segments stops before the last segment (the bound of line 349 read as `len(self.segments) - 1`), with one new node per missing middle segment, each below the one before; only the deepest node found gained a child among the old nodes, every new node is hidden and has no attributes, and every new node but the last has exactly one child |
| ResourceTree.ResourceHeap.InsertOne | pycolo/endpoint/Resource.py:349-358 | one pass creates the node for the next segment below the current one, keeping every old link and label, and the new tree is exactly the old one with that hidden node added and filed |
| ResourceTree.ResourceHeap.AttachLast | pycolo/endpoint/Resource.py:359-361 | the resource is filed below the node the middle segments lead to, and the path then leads to it; the split's frame `SplitFrame` holds from the tree before the split |
| AddSteps.GrownStart | pycolo/endpoint/Resource.py:344-348 | before any segment is created, nothing has grown |
| AddSteps.GrowStep | pycolo/endpoint/Resource.py:349-358 | creating one more node for the next segment extends the growth by exactly that node |
| AddSteps.GrowWalks | pycolo/endpoint/Resource.py:349-358 | after one more node, every prefix up to the new segment still leads to a node of the same kind, new below the first missing segment |
| AddSteps.LastGrown | pycolo/endpoint/Resource.py:359-361 | filing the resource at the end keeps the growth and makes the whole path lead to it |
| AddSteps.LinkFrame | pycolo/endpoint/Resource.py:359-361 | filing a node below another changes only that node's parent and the other's child map, which gains exactly its name; no name, hidden flag, attribute set or kind changes |
| AddSteps.NewLinkFrame | pycolo/endpoint/Resource.py:349-358 | creating a node and filing it at once changes only its parent and its new parent's child map |
| AddSteps.FramedStart | pycolo/endpoint/Resource.py:344-348 | before the first middle segment nothing has moved |
| AddSteps.FramedStep | pycolo/endpoint/Resource.py:349-358 | one more middle segment keeps every old parent but the resource's and every old child map but the deepest found node's; that node gains the first missing segment on the first pass, and every earlier new node keeps exactly one child; the new node is hidden and has no attributes, and filing changes no node's labels |
| AddSteps.FrameParents | pycolo/endpoint/Resource.py:349-361 | filing the resource or a new node changes no other old node's parent |
| AddSteps.FrameSubs | pycolo/endpoint/Resource.py:349-361 | filing below the deepest found node or a new node changes no other old node's children |
| AddSteps.FreshLabels | pycolo/endpoint/Resource.py:349-356 | a step that changes no labels keeps every new resource hidden and without attributes, as it was created |
| AddSteps.FrameNew | pycolo/endpoint/Resource.py:349-361 | filing below a childless new node gives it exactly one child and leaves the others as they were |
| AddSteps.FramedLast | pycolo/endpoint/Resource.py:359-361 | filing the resource at the end completes the frame of the split case, the new nodes still hidden and without attributes |
| AddSteps.ReplaceOutcome | pycolo/endpoint/Resource.py:335-343 | the replace case meets `AddOutcome` |
| AddSteps.SplitOutcome | pycolo/endpoint/Resource.py:344-361 | the split case meets `AddOutcome` |
| TreeWalks.ReplaceRedirectsAll | pycolo/endpoint/Resource.py:335-343 | after a replace, every path that resolved still resolves, with the replaced node standing for the resource and every other node for itself |
| TreeWalks.ReplacedKeepsLabels | pycolo/endpoint/Resource.py:335-343 | a replace changes no node's labels except that the resource takes the replaced node's name |
| TreeWalks.ReplacedRenamed | pycolo/endpoint/Resource.py:323-343 | the replace case does not depend on the name the resource had before |
| TreeWalks.KeepsLinksWalk | pycolo/endpoint/Resource.py:304-310 | a tree that keeps every child link resolves every path that resolved to the same node |
| TreeWalks.NewChildLinks | pycolo/endpoint/Resource.py:349-358 | creating and attaching a hidden resource keeps every child link there was |
| TreeWalks.AttachKeepsLinks | pycolo/endpoint/Resource.py:359-367 | attaching the resource keeps every child link there was |
| TreeWalks.LocateRenamed | pycolo/endpoint/Resource.py:81-86 | renaming a node changes no path resolution |
| TreeWalks.PrefixWalksDistinct | pycolo/endpoint/Resource.py:295-310 | two different prefixes of a path never lead to the same node, so the new nodes of the split case are all different |
| ResourceTree.ResourceHeap.UnlinkNode | pycolo/endpoint/Resource.py:373-378 | the resource leaves its own parent's child map and loses its parent |
| ResourceTree.ResourceHeap.LowerCounts | pycolo/endpoint/Resource.py:374-377 | every former ancestor's count falls by the size of the removed subtree |
| ResourceTree.ResourceHeap.Detach | pycolo/endpoint/Resource.py:369-378 | the resource is unlinked from its parent, every count above falls by the size of its subtree, and the tree stays valid |
| ResourceTree.ResourceHeap.RemoveSubResource | pycolo/endpoint/Resource.py:369-378 | no resource, or one not below `self`, changes nothing; a resource below `self`, directly or not, is detached from its own parent with its subtree, and the tree stays valid |
| ResourceTree.ResourceHeap.IsBelow | pycolo/endpoint/Resource.py:369-378 | true exactly when `self` is an ancestor of the resource |
| ResourceTree.ResourceHeap.Remove | pycolo/endpoint/Resource.py:239-242 | a resource with a parent is detached from it; a root is left alone |
| ResourceTree.ResourceHeap.RemoveSubResourcePath | pycolo/endpoint/Resource.py:381-383 | the resource the path resolves to from `self` is detached from its own parent; a path that resolves to nothing, or to `self` or a node not below it, changes nothing |
| ResourceTree.ResourceHeap.SetHidden | pycolo/endpoint/Resource.py:235-237 | only the hidden flag changes |
| ResourceTree.ResourceHeap.SetAttribute | pycolo/endpoint/Resource.py:109-117 | reports whether the attribute was new; afterwards the set holds exactly the old attributes and the new one; nothing else changes |
| ResourceTree.ResourceHeap.ClearAttribute | pycolo/endpoint/Resource.py:119-134 | every attribute with the name goes, and the others remain in order; reports whether one was there; nothing else changes |
| ResourceTree.ResourceHeap.SetTitle | pycolo/endpoint/Resource.py:144-150 | the title reads back as given and is the only one; other attributes and the rest of the tree are unchanged |
| ResourceTree.ResourceHeap.SetObservable | pycolo/endpoint/Resource.py:221-229 | observable exactly as asked; other attributes and the rest of the tree are unchanged |
| ResourceFindings.ReplaceAsWritten | pycolo/endpoint/Resource.py:335-343 | the replace case as written: the parent files the new resource under the old name, and the resource set is unchanged |
| ResourceFindings.ReplaceAsWrittenBreaksTree | pycolo/endpoint/Resource.py:335-366 | as written, the replaced resource still points to the parent that no longer files it, and the parent counts two resources where there is one |
| ResourceFindings.ReplaceCorrectedKeepsTree | pycolo/endpoint/Resource.py:335-366 | the corrected replace on the same input leaves a valid tree with a count of one |
| ResourceFindings.RemoveSubResourceAsWritten | pycolo/endpoint/Resource.py:369-379 | the removal as written: the name leaves the child map and the resource loses its parent |
| ResourceFindings.RemoveSubResourceAsWrittenMiscounts | pycolo/endpoint/Resource.py:369-379 | as written, removing a resource that has a child of its own leaves its former parent childless but counting one, which no ancestry makes valid |
| ResourceFindings.RemoveCorrectedKeepsCount | pycolo/endpoint/Resource.py:369-379 | the corrected removal on the same input lowers the count to 0 and leaves a valid tree |
| ResourceFindings.RemoveSubResourceAsWrittenWrongMap | pycolo/endpoint/Resource.py:369-383 | as written, removing "a/b" from the root looks its name up in the root's own map, so "a" still files the resource, which has no parent any more |
| ResourceFindings.RemoveCorrectedIndirect | pycolo/endpoint/Resource.py:369-383 | the corrected removal on the same input takes the resource out of its own parent's map, lowers both counts by one, and parent pointers and child maps agree |
| ResourceFindings.ReplaceAsWrittenKeepsName | pycolo/endpoint/Resource.py:321-343 | as written, adding "x/a" where "x/a" exists files the resource under "a" while it keeps the name "x/a" |
| ResourceFindings.ReplaceCorrectedTakesName | pycolo/endpoint/Resource.py:321-343 | the corrected replace on the same input gives the resource the name "a" it is filed under, and parent pointers and child maps agree |

## Left out

- Logging, the `RequestHandler` behaviour of a resource, `createSubResource` (which has an empty body) and `prettyPrint` (which writes to an output stream) are not modelled.
- The option registry is not part of this model. It supplies the option numbers, `getName` and the text of `Option.__str__`, so option numbers are a datatype of names and `__str__` is left out.
- `BlockOption` is not part of this model. `fromNumber` gives its class for BLOCK1 and BLOCK2, but the block fields are not modelled.
- `getResourceType`, `getInterfaceDescription` and `getContentTypeCode` are left out because `LinkFormat.getStringValues` and `getIntValues` are not part of this model.
- `setResourceType`, `setInterfaceDescription`, `setContentTypeCode` and `setMaximumSizeEstimate` are plain `setAttribute` calls, which `ResourceTree.ResourceHeap.SetAttribute` covers.
- `LinkFormat.addAttribute` is not part of this model, so `setAttribute` is set insertion. Its documented once-only rule for "title" is not enforced.
- The attribute set is a `TreeSet` ordered by `LinkAttribute.compareTo`, which is not part of this model. The model keeps set semantics in insertion order.
- Host-name resolution in the URI constructor of `EndpointAddress` is a parameter holding its outcome.
- `DEFAULT_PORT` is imported from a package file that is not part of this model. It is taken as 5683, the CoAP port of section 6.1 of RFC 7252.
- OptionCodec.GetStringValue: bytes that are not UTF-8 read as the empty string; what pycolo does with them (a decoding error) is not modelled.
- Several names in `Resource.py` and `Option.py` are read before they are assigned. The model gives each its evident meaning:
  - `base` in `getPath` is `self.parent`;
  - `root` in `getResource` starts at `self`;
  - `length` and `self.segments` in `add` are the base path and the split name;
  - the loop counter of the middle segments starts at the first missing segment;
  - `p` in `removeSubResource` starts at `self` in the as-written `ResourceFindings.RemoveSubResourceAsWritten`, and at the removed resource's former parent in the corrected `ResourceTree.ResourceHeap.RemoveSubResource`;
  - `builder` and `i` in `hex` are an empty string and 0;
  - `aux` and `i` in `setIntValue` are the 4-byte word of the value and 3.
- ResourceTree.ResourceHeap.BeginSplit: `pycolo/endpoint/Resource.py:347` renames the resource to `self.segments[len(self.segments)]`, an index one past the end, which raises `IndexError` in Python for every list. The model reads it as the last segment, `segs[|segs| - 1]`, the name under which the resource is filed at line 361.
- ResourceTree.ResourceHeap.InsertMiddle: the loop bound `i < len(self.segments)` at `pycolo/endpoint/Resource.py:349` is read as `len(self.segments) - 1`, following the "insert middle segments" comment at line 348. As written, the loop would also create a hidden node named by the last segment, and lines 360-361 would file the resource below it, so adding "a/b" to an empty root would give "a/b/b". That extra node is not modelled.
- OptionCodec.FromNumber: the constructor of `BlockOption` is not part of this model, so the initial value of a `BlockOption` is taken to be absent, like that of a plain option built from a number.
- Python's `Option.fromNumber` as written returns None for BLOCK1, because its `if` has no body. The model follows the evident fall-through to `BlockOption`.
- `hex` loops on `while len(data)`, whose condition stays true. As written, the loop ends only when `data[i]` raises `IndexError` at `i == len(data)`, so it never returns a string for a non-empty value. The model stops after the last byte, and this exception is not modelled.
- `clearAttribute` collects from a bare `attributes`, which is not defined. The model reads the resource's own attribute set.
- `getSubResources` iterates over a bare `subResources` (`pycolo/endpoint/Resource.py:267`), which is not defined. The model reads the resource's own child map.
- `Resource.py` keeps a resource's name in `resourceIdentifier` (set at lines 53 and 86) but reads it as `__name__` (lines 64, 68 and 318-343). The model treats the two as one name.
- `split` and `join` take a string delimiter (`pycolo/coap/Option.py:85` and `99`), which Python's `str.split` reads as a literal string. The model takes a single character, so multi-character delimiters are not modelled.
- ResourceTree.ResourceHeap.Add: requires the added resource to have no parent and no children, and a name made of non-empty segments after the leading "/" characters are stripped. The counts of a resource that arrives with its own subtree, and names with empty segments (such as "a//b" or "a/"), are not modelled.
- ResourceTree.ResourceHeap.Rename: only for a resource without a parent. Renaming an attached resource would leave its parent's child map keyed by the old name, which the tree invariant excludes.
- OptionCodec.DecodeInt: states the result modulo 2^32 of the big-endian value. This fixes the Java `int` exactly, which `IntRoundTrip` uses.
- ResourceForest.CompareTo: paths are ordered by Unicode code point, as Python's `str` comparison does. Java's `String.compareTo` orders by UTF-16 code unit, and the two differ for paths holding characters above U+FFFF; that order is not modelled.
- Concurrency: pycolo's objects are not synchronised, and the model is sequential.

## Findings

| source | as written | input that shows it | evidently intended | confidence | as-written member | corrected member |
|---|---|---|---|---|---|---|
| pycolo/coap/Option.py:229-235 | `hex` appends a space after every byte, since its test `i < len(data)` holds on each iteration | with the loop stopped after the last byte, `[0x01]` gives "01 " | a space only between bytes: "01" | not executed | OptionCodec.HexAsWrittenTrailingSpace | OptionCodec.HexString |
| pycolo/endpoint/Resource.py:335-366 | the replace case of `add` leaves the replaced resource pointing at its old parent. The new resource keeps a count of 0, and the counts above rise by one although no resource was added | a root with child "a", then `add` of another resource named "a" | the new resource takes the old one's parent, children and count; the old one is detached and emptied; no count changes | not executed | ResourceFindings.ReplaceAsWrittenBreaksTree | ResourceFindings.ReplaceCorrectedKeepsTree |
| pycolo/endpoint/Resource.py:369-379 | `removeSubResource` lowers the counts by one, whatever the size of the removed subtree | a chain root, "a", "a/b", then removing "a" from the root | lower every count above by one plus the removed resource's own count | not executed | ResourceFindings.RemoveSubResourceAsWrittenMiscounts | ResourceFindings.RemoveCorrectedKeepsCount |
| pycolo/endpoint/Resource.py:369-383 | `removeSubResource` removes the resource's name from the child map of `self`, although `removeSubResource(path)` passes it resources that lie deeper | a chain root, "a", "a/b", then `removeSubResource("a/b")` on the root | remove the resource from its own parent's map, when it lies below `self` | not executed | ResourceFindings.RemoveSubResourceAsWrittenWrongMap | ResourceFindings.RemoveCorrectedIndirect |
| pycolo/endpoint/Resource.py:321-343 | the replace case of `add` files the resource under the last segment but never renames it, so a compound name stays on it | a root, "x", "x/a", then `add` of a resource named "x/a" on the root | the resource takes the name it is filed under, as the split case evidently means to do with the `setName` call at line 347 | not executed | ResourceFindings.ReplaceAsWrittenKeepsName | ResourceFindings.ReplaceCorrectedTakesName |
