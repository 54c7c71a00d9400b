# html2tree in Dafny

A model of the core of `html2tree.py`. That file records the markup events an
HTML tokenizer reports and builds a tree of tag and data nodes from them. It
then prunes unwanted subtrees by tag name and attribute tokens, and flattens
what is left to normalised text.

The model has four parts, one module each:

- `Recorder`: the `HTMLTreeParser` callbacks. A class whose two parallel lists,
  `members` and `types`, grow by one entry per start tag, end tag or
  non-blank text run. Read together, they are a list of `Event`s.
- `HtmlTree`: `HTMLTree` and the event loop of `html_to_tree`.
  - The class keeps the tree as a stack of open frames. `path` holds the open
    ancestors of `pointer`, root first. An open node joins its parent's
    `children` when it is closed.
  - `add_node`, `add_data`, `close_node`, `self_close` and `clean` are
    methods that update that state in place. `check_sanity` is a method that
    reads it and changes nothing.
  - `HtmlToTree` runs the loop over a list of events. It returns the built
    root, one of the three exceptions, or `Hangs`. `Hangs` is the case where
    the source waits forever on an empty `LifoQueue`.
- `Prune`: `TagNode.clean` / `DataNode.clean`, as a function from a node to an
  optional node.
- `Text`: `pure_text`. `TreeText` is what `HTMLTree.pure_text` returns for a
  root.

Three supporting modules:

- `PyStr` holds the Python string operations the source relies on. These are
  `str.strip`, `str.split()`, `' '.join` and `re.sub(r'\s+', ' ', s)`, over
  Python's whitespace set (`str.isspace`).
- `Nodes` holds the node values and their document-order walk (`Ser`).
- `Scanner` is a reference reading of an event list that keeps only the names
  of the open elements. The builder is proved to succeed, fail or hang exactly
  as this scan does.

`Scenarios` works through the two pages of `unit_test`: from each page's
events it proves that the builder yields a given tree, then prunes that tree
and flattens it to text.

Three behaviours of the code that the model keeps as written:

- **End of stream with an element still open.** At the end of the event
  loop only the innermost open node is force-closed, once
  (html2tree.py:317). If a non-void element is still open, the pointer is
  on the innermost one. That `self_close` closes it and, unless it is itself
  named `root` (html2tree.py:250-251), moves back to its parent; either way
  the real root stays open. `check_sanity` (html2tree.py:270-271) then
  raises "Tree root node not closed.". For `<div><footer>footer text</footer>` the pointer is back on
  the `div`, so the `div` is closed and the root is not.
  `Scanner.UnclosedStaysOpen` (with `d` = `div` and `f` = `footer`) together
  with `HtmlTree.HtmlToTree` shows this.
- **Closing past the last open element.** An end tag that arrives when every
  element is closed meets the root, which is still open.
  - A stray `</p>` there raises "Closing tag doesn't match starting tag."
    (html2tree.py:125-127), because the root is named `root`.
  - A `</root>` there closes the root. The `path.get()` that follows
    (html2tree.py:242) runs on an empty `LifoQueue` and blocks forever.
  - "More closing tags than starting tags." (html2tree.py:239-240,
    247-248, 252-253) never comes out of `html_to_tree`. The raises at 239-240 and
    247-248 need a closed pointer, and every node the loop closes is still
    open. The raise at 252-253 needs an empty `path` under a pointer not
    named `root`, and such a pointer always has its parent on `path`
    (`HtmlTree.HTMLTree.SelfClose` ensures `old(path) != []` in that case).
    `HtmlToTree` ensures `r != Failed(MoreClosingTags)`.
- **Prune test precedence.** The drop test at html2tree.py:137 is
  `ids | (classes & attrs_delete)`, not `(ids | classes) & attrs_delete`,
  because `&` binds tighter than `|`. So any tag node whose `id` has at least one
  token is dropped, whatever the deletion list. An `id` of only whitespace,
  such as `" "`, has no tokens and does not drop the node.

## Model

| member | source | states |
|---|---|---|
| PyStr.StripShape | html2tree.py:43-44 | `strip()` returns the piece of its input that starts at `StripStart`. Everything cut off on either side is whitespace. The piece is empty exactly when the input is all whitespace, and otherwise starts and ends with non-whitespace. |
| PyStr.StripIdempotent | html2tree.py:43 | Stripping twice is stripping once. |
| PyStr.Strip | html2tree.py:43 | `str.strip()` over Python's whitespace set. What it returns is stated by `PyStr.StripShape`, and that it is idempotent by `PyStr.StripIdempotent`. |
| PyStr.Split | html2tree.py:108 | `str.split()` yields only non-empty, whitespace-free words. |
| PyStr.SplitJoinWords | html2tree.py:147 | Space-joining words and splitting the result gives the words back. |
| PyStr.SplitJoin | html2tree.py:147 | Splitting a space-join of any texts gives the concatenation of their splits. |
| PyStr.JoinSpace | html2tree.py:147 | `' '.join(xs)`. `PyStr.SplitJoin` and `PyStr.SplitJoinWords` state what splitting its result gives back. |
| PyStr.Collapse | html2tree.py:277 | `re.sub(r'\s+', ' ', s)`: every maximal whitespace run becomes one space. `PyStr.CollapseStripIsJoinSplit` relates it, followed by `strip()`, to `' '.join(s.split())`. |
| PyStr.CollapseStripIsJoinSplit | html2tree.py:277 | `re.sub(r'\s+', ' ', s).strip()` equals `' '.join(s.split())` for every `s`. |
| Nodes.AttrTokensKeys | html2tree.py:108 | The attribute map has exactly one key per attribute name given. |
| Nodes.AttrTokensLastWins | html2tree.py:108 | A repeated attribute name maps to the token set of its last occurrence. |
| Nodes.AttrTokensAreWords | html2tree.py:108 | Every stored token is non-empty and whitespace-free. |
| Nodes.AttrTokens | html2tree.py:108 | The dictionary comprehension of `TagNode.__init__`. Its keys, the last-pair-wins rule and its token shape are stated by `Nodes.AttrTokensKeys`, `Nodes.AttrTokensLastWins` and `Nodes.AttrTokensAreWords`. |
| Nodes.OneWordTokens | html2tree.py:108 | A value that is one word has that word as its only token. |
| Nodes.TwoWordTokens | html2tree.py:108 | A value of two words with one space between has exactly those two tokens. |
| Nodes.TwoAttrTokens | html2tree.py:108 | Two attributes with different names map to the token sets of their values. |
| Nodes.NewTagNode | html2tree.py:106-109 | `TagNode(tag, attrs=pairs)`: the name, the attribute map of `AttrTokens`, no children, open, level 0. `add_node` then sets the level, as `HtmlTree.HTMLTree.AddNode` states. |
| Nodes.WalkDeterminesNode | html2tree.py:284-319 | A closed subtree, each child one level below its parent, is determined by its document-order walk and its level. |
| Nodes.WalkDeterminesForest | html2tree.py:284-319 | A list of such sibling subtrees at one level is determined by its walk. So a built tree is the only settled tree whose walk is the events' walk. |
| Recorder.HTMLTreeParser.constructor | html2tree.py:23-26 | A new parser has empty `members` and `types` and no events. |
| Recorder.HTMLTreeParser.HandleStartTag | html2tree.py:28-32 | Appends `(tag, attrs)` and `'starttag'`. The two lists stay the same length, and the event list grows by this start tag. |
| Recorder.HTMLTreeParser.HandleEndTag | html2tree.py:34-38 | Appends the tag name and `'endtag'`, and the event list grows by this end tag. |
| Recorder.HTMLTreeParser.HandleData | html2tree.py:40-46 | All-whitespace data records nothing. Other data records its stripped form as one data event. |
| Recorder.RecordedTextIsStripped | html2tree.py:40-46 | Every recorded data event is non-empty, with no whitespace at either end. |
| Recorder.Zip | html2tree.py:305 | `zip(types, members)`, read as events. `Recorder.ZipSnoc` states that appending one matching pair adds exactly one event. |
| Recorder.ZipSnoc | html2tree.py:28-46 | Appending one matching pair to both lists keeps them paired and adds exactly its event at the end. |
| Scanner.NormOne | html2tree.py:296-316 | What one event adds to the walk of the tree to be built: a void start tag (one of the 16 names of `Scanner.SelfClosingTags`, lines 296-297) opens and closes its element, a void end tag adds nothing. `Scanner.SerForestAccepted` and `HtmlTree.HtmlToTree` state its properties. |
| Scanner.TagWalk | html2tree.py:305-316 | A closed non-void element whose children walk through some events walks through its start tag, those events and its end tag. |
| Scanner.ScanKeepsFailure | html2tree.py:305-316 | Once a prefix of the events fails, the whole list fails the same way. |
| Scanner.SerForestAccepted | html2tree.py:305-318 | The walk of any forest of nodes scans cleanly and leaves the open names as they were. |
| Scanner.ScanDepth | html2tree.py:305-316 | While the scan succeeds, the number of open elements is the number of non-void start tags minus the number of non-void end tags. |
| Scanner.Balanced | html2tree.py:317-318 | On an event list that scans back to no open element, non-void start and end tags are equal in number. |
| Scanner.ScanStep | html2tree.py:305-316 | The scan of one more event continues from the scan of the events so far. |
| Scanner.ScanOpen | html2tree.py:306-308 | A non-void start tag pushes its name onto the open names. |
| Scanner.ScanClose | html2tree.py:314-316 | A non-void end tag takes one closing step from the scan so far. It pops a matching innermost name and otherwise fails. |
| Scanner.PairScan | html2tree.py:305-316 | For any non-void name, `<p></p>` leaves nothing open. |
| Scanner.ExtraCloseMismatches | html2tree.py:232-242 | For any non-void name other than `root`, `<p></p></p>` gives the mismatch, not the excess-close error. |
| Scanner.VoidEndTagIgnored | html2tree.py:314-316 | For any void name, `<br></br>` leaves nothing open: the void end tag is dropped. |
| Scanner.VoidThenStrayClose | html2tree.py:309-310 | For any void name and any non-void name other than `root`, `<img src=x.png></div>` mismatches: `img` closes at once, and `</div>` then meets the root. |
| Scanner.RootEndTagSticks | html2tree.py:242 | For any non-void name, `<p></p></root>` closes the root itself. This is the case in which `path.get()` waits forever. |
| Scanner.TwoOpen | html2tree.py:306-308 | Two non-void start tags leave both names open, outer first. |
| Scanner.UnclosedStaysOpen | html2tree.py:317-318 | For any two non-void names, `<div><footer>footer text</footer>` ends with `div` still open, so the build raises "Tree root node not closed.". |
| HtmlTree.RootNode | html2tree.py:209 | `TagNode('root')`: named `root`, no attributes, no children, open, level 0. `HtmlTree.HTMLTree.constructor` states the new tree's pointer is this node. |
| HtmlTree.Plug | html2tree.py:111-114 | `add_child`: the child becomes the last of the parent's children. `HtmlTree.HTMLTree.Pop` and `HtmlTree.HTMLTree.AddData` state where it is used. |
| HtmlTree.HTMLTree.constructor | html2tree.py:208-211 | A new tree is a single open root named `root` at level 0, with an empty path. |
| HtmlTree.HTMLTree.AddNode | html2tree.py:213-222 | The new node gets level `pointer.level + 1`. The old pointer is pushed, and the new node becomes the pointer. The tree walk grows by the node's start and the open names by its name. The frame invariant holds (every frame at its depth, so `len(path) == pointer.level`). |
| HtmlTree.HTMLTree.AddData | html2tree.py:224-229 | The data node gets level `pointer.level + 1` and becomes the pointer's last child. Path and pointer position do not move. The walk grows by the text. |
| HtmlTree.HTMLTree.CloseNode | html2tree.py:232-242 | Checks run in the source's order. A closed pointer raises the excess-close error. Otherwise a different name raises the mismatch. Otherwise the pointer is closed and appended to its parent, which becomes the pointer. Closing the root leaves nothing to pop (`Blocked`). The closing name's `TagNode.close` (html2tree.py:121-127) is part of this. |
| HtmlTree.HTMLTree.SelfClose | html2tree.py:244-254 | A closed pointer raises. Otherwise the pointer is closed. A node named `root` stays the pointer; any other pops back to its parent, and the path is never empty there. |
| HtmlTree.HTMLTree.Pop | html2tree.py:242 | `self.pointer = self.path.get()` after a close: the closed pointer is appended to the top of the path, which becomes the pointer. The path loses its top, the walk gains the close, the open names lose their last, and the frame invariant holds. `self_close` uses the same step at line 254. |
| HtmlTree.HTMLTree.Clean | html2tree.py:256-262 | On a finished tree, the root is replaced by its pruned form. The root is never removed, and the frame invariant is kept. |
| HtmlTree.HTMLTree.CheckSanity | html2tree.py:267-271 | Raises "Tree root node not closed." exactly when the root is open. |
| HtmlTree.Consume | html2tree.py:305-316 | One event ends normally exactly when the scan accepts it. The walk then grows by that event's marks. Otherwise the build stops with the error (or hang) the scan reports, never the excess-close error. |
| HtmlTree.ConsumeStart | html2tree.py:306-310 | A start tag always succeeds. It leaves the open names as the scan does: pushed for a non-void name, unchanged for a void one. The walk grows by the tag's marks. |
| HtmlTree.ConsumeText | html2tree.py:311-313 | A data event always succeeds, leaves the open names alone and adds its text to the walk. |
| HtmlTree.ConsumeEnd | html2tree.py:314-316 | An end tag succeeds exactly when the scan accepts it. A void one changes nothing. A mismatch and `</root>` on the root are reported as the scan reports them. |
| HtmlTree.Finish | html2tree.py:317-318 | The final `self_close` and `check_sanity` succeed exactly when the pointer is the root. The built root is named `root`, has no attributes, is at level 0 and is settled (every node closed, every child one level below its parent), and its children walk through exactly the events. |
| HtmlTree.HtmlToTree | html2tree.py:284-319 | Success exactly when the scan ends with nothing open. Mismatch exactly when a close names another element. A hang exactly when `</root>` meets the root. Root not closed exactly when an element is left open. Never the excess-close error. On success, the root is settled and its children's walk is the event list, with void elements closed at once and void end tags dropped. |
| Prune.Tokens | html2tree.py:137 | `attrs.get(name, set())`. |
| Prune.DropTest | html2tree.py:137 | The drop test as it parses. `Prune.DropTestReads` states what it means. |
| Prune.DropTestReads | html2tree.py:137 | The test holds exactly when the name is listed, or there is any `id` token, or some `class` token is listed. |
| Prune.Clean | html2tree.py:129-142 | A data node is always kept (html2tree.py:180-183). A tag node is dropped exactly when its name is listed, or it has any `id` token, or a `class` token is listed. A kept tag node keeps its name, attributes, flag and level. |
| Prune.CleanRoot | html2tree.py:256-262 | The root is kept whatever `root.clean` returns. A listed root name leaves the tree as it was; otherwise the root's children are pruned. |
| Prune.CleanForest | html2tree.py:139-141 | The children after the comprehension and the filter: never more than before. `Prune.CleanForestOrder` states that they are exactly the kept children, in order. |
| Prune.CleanIsPruned | html2tree.py:135-142 | Soundness: no node of a pruned subtree passes the drop test. |
| Prune.PrunedIsFixed | html2tree.py:135-142 | A subtree with nothing to drop is left exactly as it is. |
| Prune.CleanIdempotent | html2tree.py:129-142 | Pruning twice with the same lists gives the same result as pruning once. |
| Prune.CleanRootIdempotent | html2tree.py:256-262 | Cleaning a tree twice with the same lists gives the same tree as cleaning it once. |
| Prune.CleanForestOrder | html2tree.py:139-141 | The surviving children are exactly those whose own pruning keeps them, in their original relative order. |
| Prune.CleanKeepsSettled | html2tree.py:139-141 | Pruning a settled subtree leaves it settled, with every kept node at its original level. |
| Text.PureText | html2tree.py:144-148 | `TagNode.pure_text`, and `DataNode.pure_text` (html2tree.py:185-188), which returns the data. `Text.PureTextWords`, `Text.SoleChildText` and `Text.ThreeChildText` state its properties. |
| Text.ChildTexts | html2tree.py:147 | The list of the children's texts: one text per child, the `i`-th being the pure text of the `i`-th child. |
| Text.PureTextWords | html2tree.py:144-148 | Splitting a node's `pure_text` gives the words of its data nodes in document order. |
| Text.TreeText | html2tree.py:273-278 | `HTMLTree.pure_text` on a root. `Text.TreeTextShape` and `Text.TreeTextIdempotent` state its properties. |
| Text.TreeTextShape | html2tree.py:273-278 | The tree text is the tree's words joined by single spaces, and splitting it gives the words back. It has no whitespace at either end, and every whitespace character in it is a single plain space between two non-whitespace characters. |
| Text.JoinWordsNormal | html2tree.py:277-278 | Joining words by single spaces gives text in that normal form. |
| Text.NormalFixed | html2tree.py:277 | The normaliser leaves text in normal form unchanged. |
| Text.TreeTextIdempotent | html2tree.py:277 | Normalising a tree's text a second time changes nothing. |
| Text.NormalTreeText | html2tree.py:276-278 | A tree whose joined text is already in normal form has exactly that text. |
| Text.SoleChildText | html2tree.py:144-148 | A tag node with one child has that child's text. |
| Text.ThreeChildText | html2tree.py:144-148 | A tag node with three children has their three texts joined by single spaces. |
| Scenarios.TestTreeWalk | html2tree.py:323-324 | The tree given for `<div>This is a test text.</div>` is settled and walks through the page's events. |
| Scenarios.BuildTestPage | html2tree.py:323-324 | `html_to_tree` on the first test page's events builds exactly that tree. |
| Scenarios.TestTreeText | html2tree.py:326-328 | The tree built for the first test page has the text "This is a test text.". |
| Scenarios.TestTreeClean | html2tree.py:327 | Pruning the tree built for the first test page with the default lists leaves it unchanged. |
| Scenarios.HeaderAttrTokens | html2tree.py:330 | The header block's `id = "menu head"` gives the tokens `menu` and `head`, and `class = "menu"` gives `menu`. |
| Scenarios.MenuPageWalk | html2tree.py:330-332 | The tree given for the second test page walks through that page's events. |
| Scenarios.MenuPageSettled | html2tree.py:330-332 | That tree is settled. |
| Scenarios.BuildMenuPage | html2tree.py:330-332 | `html_to_tree` on the second test page's events builds exactly that tree. |
| Scenarios.HeaderDropped | html2tree.py:135-138 | The header block of the second test page is dropped for its `id` alone. |
| Scenarios.FooterDropped | html2tree.py:135-138 | The `footer` of the second test page is dropped for its name. |
| Scenarios.BodyCleaned | html2tree.py:139-141 | The body of the second test page keeps its text and nested `div` and loses the `footer`. |
| Scenarios.MenuPageClean | html2tree.py:333 | On the tree built for the second test page, the default lists drop the `div` with an `id` and the `footer`, and keep the rest. |
| Scenarios.MenuPageText | html2tree.py:334 | The pruned second page has the text "text1 text2 text3". |

## Left out

- The `HTMLParser` tokenizer (`feed`, `close`, and the comment, entity,
  character-reference and declaration handlers) is not modelled. It is library
  code. The builder takes the event list as its input, and the recorder's
  handlers are modelled as the callbacks it would invoke.
- The regular-expression rewrites of the raw HTML before tokenizing
  (html2tree.py:299-301) are not modelled. They act only on text the tokenizer
  consumes.
- The `__str__` renderers are not modelled. Their output depends on dict and
  set iteration order.
- `LifoQueue` thread-safety is not modelled. Its blocking `get()` on an empty
  queue is modelled as the `Blocked` status and the `Hangs` result.
- Valueless attributes are not modelled: the tokenizer reports `None` for
  them, and `None.split()` raises. Attribute values are strings here.
- Mutable default arguments are not modelled. The deletion lists are explicit
  parameters; `Prune.DefaultTagsDelete` and `Prune.DefaultAttrsDelete` hold the
  defaults.
- The printing in `unit_test` and the `__main__` entry point are not modelled.
  The two test pages appear in `Scenarios` as event lists and the trees built
  from them.
- Node identity and aliasing are not modelled. Nodes are values. The open
  frames on `path` and the pointer join their parent's `children` list only
  when they are closed, instead of being shared objects appended at once.
  Every finished tree is the same under both readings. A tree observed halfway
  through the build, however, shows its open nodes outside their parents here.
- `TagNode.clean` and `DataNode.clean` are modelled as functions returning the
  pruned node, not as in-place reassignment of `children` on shared objects.
- HtmlTree.HTMLTree.Clean: requires a finished tree (empty `path`). Cleaning
  in the middle of a build, with open frames outside the root's children, is
  not modelled.
- HtmlTree.HtmlToTree: takes the recorded events directly instead of
  `zip(types, members)`. `zip` truncation never arises, since the two lists
  always have the same length (`Recorder.HTMLTreeParser.Valid`).
- `Scenarios`: the event lists of the two test pages are written out as the
  recorder keeps them, because the tokenizer is not modelled. From those
  events on, `Scenarios.BuildTestPage` and `Scenarios.BuildMenuPage` prove
  that `html_to_tree` builds exactly the trees that the scenario lemmas
  prune and flatten.
