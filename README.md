# laravel-menu in Dafny

A model of the core of laravel-menu, a PHP package that builds navigation menus. This is the model and what is proved about it:

- A **Builder** holds a flat, insertion-ordered list of **Items** that are linked by parent ids. It also holds a stack of group attributes.
- Every lookup (`get`, `find`, `roots`, `active`, children, parent) goes through the `where<Attr>` filter, which uses PHP loose `==`.
- `render` turns the list into nested `<ul>`, `<ol>` or `<div>` markup.
- An Item carries:
  - its attributes and data, read and written through the overloaded `attr(...)` and `data(...)`;
  - its title and surrounding HTML;
  - its `active` and `isActive` flags;
  - an optional **Link** that holds the anchor state.
- An Item activates itself when the request URL matches its own, either exactly or by prefix in RESTful mode. Ancestors can also receive the active class.
- A **Collection** broadcasts mutations to every item of a list.
- A **Menu** is a registry from names to builders, each configured from the package settings.

The model has eight modules:

- `Php` (php.dfy): the PHP values the code works on:
  - ordered arrays with string and integer keys;
  - `array_merge`, `Arr::except` and `Arr::only`;
  - loose `==` and truthiness;
  - `strtolower`, `trim`, `explode`, `implode` and `array_unique`.
- `Groups` (groups.dfy): the group-attribute merge rules `formatGroupClass`, `formatGroupPrefix` and `mergeGroup`.
- `Html` (html.dfy): `attributes` and `attributeElement`.
- `Urls` (urls.dfy): `dispatch`, `getUrl`, `isAbs`, and the two URL tests of auto-activation.
  - The framework's URL generator and the request are parameters of type `Env`.
- `Tree` (tree.dfy): value snapshots of items (`ItemView`) and the `where<Attr>` filter.
  - A depth measure makes the recursions on parent ids terminate.
  - Also here: the descendants walk, the ancestor chain of `activate()` and `crumbMenu()`, and the `render` specification with the loop that computes it.
- `Sorting` (sorting.dfy): the comparison closure of `sortBy` and a sort by it.
- `Nodes` (nodes.dfy): the classes `Link`, `Item` and `Builder`, and the broadcasts of `Collection` as methods over a list of items.
  - These live in one module because items and builders refer to each other, and the data cascade passes from one to the other.
- `Registry` (registry.dfy): the class `Menu` and `loadConf` with the published defaults.

Objects whose fields the PHP code updates in place are classes here, and their methods state the new state:

- `Link`, `Item`, `Builder` and `Menu` are classes.
- Pure computations are functions, with lemmas stating what they mean.
- Loops in the source are `while` loops with invariants. These are:
  - `attributes`;
  - the render loop;
  - the crumb walk;
  - the `activate` walk over its targets;
  - the Collection broadcasts;
  - the adds of the derived menus.
- Errors the PHP code raises are modelled as a `Status`: `Done`, `Thrown` (an exception), or `Diverges` (the code does not return).
- A recursion that ends on well-formed menus carries a depth bound `n`. `Bounded(ns, p, n)` says that the subtree under the id `p` has at most `n` levels.
  - A cycle of parent ids has no bound (`Tree.CycleUnbounded`). The operations that would loop on one therefore require a bound.

## Model

| member | source | states |
|---|---|---|
| Groups.FormatGroupClassTokens | src/Lavary/Menu/Builder.php:300-309 | Without a class in the new attributes the old class comes back unchanged; otherwise the result is the old tokens then the new ones, space-joined, duplicates removed keeping the first |
| Groups.FormatGroupClassUnion | src/Lavary/Menu/Builder.php:300-309 | The merged class holds a token exactly when either class has it, and holds no token twice |
| Groups.FormatGroupClassAgain | src/Lavary/Menu/Builder.php:300-309 | Merging the same class into an already merged class changes nothing: the merge is idempotent |
| Groups.JoinedClasses | src/Lavary/Menu/Builder.php:303-305 | Splitting `trim(old . ' ' . new)` on spaces gives the tokens of the two trimmed classes, old first |
| Groups.PushedPrefix | src/Lavary/Menu/Builder.php:211-278 | After a group is pushed, `getLastGroupPrefix()` is the new attributes' prefix formatted against the previous top group, or, on an empty stack, the attributes' own prefix (`''` when they have none) |
| Groups.NestedGroupPrefix | src/Lavary/Menu/Builder.php:194-278 | Inside a group with the slash-free prefix `a`, a group with the slash-free prefix `b` leaves the last group prefix `a/b` |
| Groups.NoPrefixGroup | src/Lavary/Menu/Builder.php:257-278 | A top-level group without a prefix gives the prefix `''`; a group without a prefix inside a group with prefix `a` keeps `a` |
| Groups.PrefixSlashes | src/Lavary/Menu/Builder.php:257-264 | The prefix `/b/` inside the prefix `/a/` formats to `a/b`, the slashes of both trimmed; a prefix `b` under attributes without a prefix formats to `/b` |
| Groups.NestedPrefix | src/Lavary/Menu/Builder.php:240-264 | A nested group with prefix `b` inside one with prefix `a` has the prefix `trim(a,'/')/trim(b,'/')` |
| Groups.MergeGroupGet | src/Lavary/Menu/Builder.php:240-247 | The merged group has the merged prefix and the merged class; every other key takes the new value over the old |
| Groups.DividerClasses | src/Lavary/Menu/Builder.php:183 | The divider class `divider` is merged with the given class tokens, without duplicates |
| Php.MergeGet | src/Lavary/Menu/Menu.php:101-102 | After `array_merge(a, b)`, a string key has b's value when b has the key, else a's; the key is present when either has it |
| Php.ExceptGet | src/Lavary/Menu/Builder.php:328 | `Arr::except` reads as null on the dropped keys and as the original on all others |
| Php.OnlyGet | src/Lavary/Menu/Item.php:134 | `Arr::only` reads as the original on the kept keys and as null on all others |
| Php.ImplodeExplode | src/Lavary/Menu/Builder.php:303-305 | Joining the pieces of `explode` with the separator gives the string back |
| Php.ExplodeImplode | src/Lavary/Menu/Builder.php:303-305 | Splitting a join of separator-free pieces gives the pieces back |
| Php.UniqueAppend | src/Lavary/Menu/Builder.php:305 | `array_unique` keeps first occurrences: values already seen add nothing when appended |
| Php.PutGet | src/Lavary/Menu/Item.php:229 | After `$a[$k] = $v`, `$a[$k]` is `v` and every other key reads as before |
| Php.ArrayLooseEqSymmetric | src/Lavary/Menu/Builder.php:485 | PHP array `==` (as many entries, every key of one a key of the other with a loosely equal value) is symmetric |
| Php.LooseEqSymmetric | src/Lavary/Menu/Builder.php:838 | The loose comparison of the filter is symmetric |
| Php.LowerIdempotent | src/Lavary/Menu/Menu.php:99 | Lower-casing twice is lower-casing once |
| Php.NatToStringInjective | src/Lavary/Menu/Builder.php:82-87 | Different fresh-id counters print as different strings |
| Html.AttributeElement | src/Lavary/Menu/Builder.php:733-743 | A null value renders nothing; any other value renders an element |
| Html.Attributes | src/Lavary/Menu/Builder.php:711-723 | The loop over the attributes builds exactly the attribute string |
| Html.AttrStringEmpty | src/Lavary/Menu/Builder.php:711-723 | The attribute string is empty exactly when every value is null |
| Html.AttrStringPairs | src/Lavary/Menu/Builder.php:711-743 | The attribute string is a leading space before each non-null pair, in insertion order |
| Html.SpacedPairsAppend | src/Lavary/Menu/Builder.php:711-723 | The attribute string of two arrays joined is the two strings joined |
| Html.SingleAttribute | src/Lavary/Menu/Builder.php:733-743 | One pair renders as ` key="e(value)"`; a key that `is_numeric` accepts (an integer key, or a numeric string key such as `05` or `1.5`) uses the value as the name; a null value renders nothing |
| Html.NumericStringKey | src/Lavary/Menu/Builder.php:735-737 | The string key `05` renders the value as the attribute name |
| Php.NumericLeadingZero | src/Lavary/Menu/Builder.php:735 | `is_numeric('05')` holds |
| Php.NumericFraction | src/Lavary/Menu/Builder.php:735 | `is_numeric('1.5')` holds |
| Php.NumericExponent | src/Lavary/Menu/Builder.php:735 | `is_numeric('1e3')` holds |
| Php.NumericBlanksAround | src/Lavary/Menu/Builder.php:735 | `is_numeric` accepts blanks around the number and a sign (` 5`, `-2 `) |
| Php.NotNumericWord | src/Lavary/Menu/Builder.php:735 | `is_numeric('class')` is false, so an ordinary attribute name is printed as the key |
| Php.NotNumericFragments | src/Lavary/Menu/Builder.php:735 | `is_numeric` rejects a lone point, the empty string, an exponent without digits and hexadecimal |
| Urls.DispatchNull | src/Lavary/Menu/Builder.php:336-355 | Dispatch gives null exactly when no `url`, `route` or `action` option is set |
| Urls.DispatchPrecedence | src/Lavary/Menu/Builder.php:336-355 | With `url` set, adding a `route` or an `action` changes nothing; with `route` set, adding an `action` changes nothing |
| Urls.DispatchUrl | src/Lavary/Menu/Builder.php:364-388 | A URL with a scheme is returned verbatim; any other goes through the generator with the prefix and the secure flag |
| Urls.DispatchUrlList | src/Lavary/Menu/Builder.php:369-380 | For a list URL, the first element is the target and the rest are the generator's parameters |
| Urls.GetUrlReads | src/Lavary/Menu/Builder.php:364-388 | `getUrl` depends only on the `url`, `prefix` and `secure` options |
| Urls.RestMatchSpec | src/Lavary/Menu/Item.php:379 | The prefix test matches the path exactly when the request path equals it or continues it with `/` and more |
| Urls.StripBaseFirst | src/Lavary/Menu/Item.php:373-377 | An alternative of `rest_base` followed by `/` at the start is removed once |
| Urls.StripBaseNone | src/Lavary/Menu/Item.php:373-377 | A path that starts with no alternative is left unchanged |
| Urls.PlainPattern | src/Lavary/Menu/Item.php:465-466 | A pattern without wildcards matches exactly the path it names, slashes trimmed on the left |
| Urls.TrailingWildcard | src/Lavary/Menu/Item.php:465-466 | `p/*` matches `p` itself and every path that continues `p` with a slash and newline-free characters |
| Urls.TwoPieces | src/Lavary/Menu/Item.php:465-466 | A literal piece followed by one wildcard matches exactly a prefix then a wildcard stretch |
| Tree.WhereIdx | src/Lavary/Menu/Builder.php:816-844 | The filter result lists valid positions in increasing order |
| Tree.WhereIdxExact | src/Lavary/Menu/Builder.php:833-843 | A position is in the filter result exactly when its item has the property and the property loosely equals the value |
| Tree.WhereFirst | src/Lavary/Menu/Builder.php:109-122 | The first result of the filter is the lowest matching position; no result means no item matches |
| Tree.DeclaredMatches | src/Lavary/Menu/Item.php:544-567 | Filtering on `id`, `parent`, `nickname` or `active` compares the declared field itself |
| Tree.ChildIdx | src/Lavary/Menu/Item.php:326-329 | `whereParent(p)` lists, in order, exactly the positions whose parent loosely equals `p` |
| Tree.WhereParentIsChildIdx | src/Lavary/Menu/Builder.php:439-442 | The generic filter on `parent` is the children query |
| Tree.FirstId | src/Lavary/Menu/Builder.php:119-122 | `whereId(x)->first()` is the first position whose id loosely equals `x`, or none when no id does |
| Tree.WhereIdIsFirstId | src/Lavary/Menu/Builder.php:119-122 | The generic filter on `id` followed by `first()` is the id lookup |
| Tree.CycleUnbounded | src/Lavary/Menu/Builder.php:639-644 | A cycle of parent ids has no depth bound, so no bounded operation runs on one |
| Tree.BoundedMono | src/Lavary/Menu/Builder.php:639-644 | A subtree that fits in `n` levels also fits in more |
| Tree.WalkChildren | src/Lavary/Menu/Item.php:356-359 | Every child of an item is among its descendants |
| Tree.WalkClosed | src/Lavary/Menu/Item.php:356-359 | The descendants are closed under child steps: grandchildren are descendants |
| Tree.FilterRecursiveAsWrittenEmpty | src/Lavary/Menu/Builder.php:785-806 | As written, the recursive filter returns an empty collection on every menu |
| Tree.FilterRecursiveCounterexample | src/Lavary/Menu/Builder.php:791 | A menu with one root item: the plain filter finds it, the recursive filter as written finds nothing |
| Tree.FilterRecursiveParent | src/Lavary/Menu/Builder.php:785-806 | With the guard asking the item, the recursive filter on `parent` gives exactly the descendants walk |
| Tree.FilterRecParentFrom | src/Lavary/Menu/Builder.php:789-803 | The corrected filter from any position yields the walk of the later children and their subtrees |
| Tree.DanglingParentLoops | src/Lavary/Menu/Item.php:448-452 | When the parent id is truthy and matches no item, the next step of `activate` as written is the item itself |
| Tree.DanglingParentExample | src/Lavary/Menu/Item.php:448-452 | A concrete item with the parent `missing` and an empty list steps back to itself |
| Tree.NextCorrected | src/Lavary/Menu/Item.php:448-452 | The corrected step goes only to an existing item, or stops |
| Tree.NextAgree | src/Lavary/Menu/Item.php:448-452 | Wherever the corrected step goes on, the code as written takes the same step |
| Tree.AncestorsFollowSteps | src/Lavary/Menu/Item.php:443-453 | Without a cycle, the ancestor chain follows the corrected step from target to target and ends exactly where the step stops |
| Tree.AncestorsDistinct | src/Lavary/Menu/Item.php:443-453 | The ancestor chain never visits an item twice |
| Tree.AncestorsLoopBack | src/Lavary/Menu/Item.php:448-452 | When the chain loops, the parent id of its last target names an item met before, so the recursion goes round the same targets again |
| Tree.CycleClimbExample | src/Lavary/Menu/Item.php:448-452 | Two items naming each other as parent give the chain second item, first item, and then a loop |
| Tree.CrumbsOfLinks | src/Lavary/Menu/Builder.php:582-598 | A crumb trail ends at the item, starts at a root, and each crumb is the parent found for the next |
| Tree.CrumbsRoot | src/Lavary/Menu/Builder.php:587-591 | The first crumb has a null parent |
| Tree.RawItemUrl | src/Lavary/Menu/Item.php:244-257 | An item without a link has a null URL |
| Tree.HrefWins | src/Lavary/Menu/Item.php:250-252 | A truthy `href` is the URL, whatever the path says |
| Tree.ExactActivation | src/Lavary/Menu/Item.php:364-388 | Outside RESTful mode an item activates exactly when activation by URL is enabled and its URL equals the request URL or the full URL |
| Tree.RestfulActivation | src/Lavary/Menu/Item.php:369-381 | In RESTful mode without a base, an item activates exactly when enabled and the request path equals or extends the item path |
| Tree.RenderLevel | src/Lavary/Menu/Builder.php:612-654 | The render loop produces the render specification: each child's markup in list order, the callback's array changes carrying on |
| Tree.RenderOne | src/Lavary/Menu/Builder.php:619-650 | One item's markup: the callback runs on linked items only; the wrapper, the anchor, the nested children and the divider follow |
| Tree.RenderFromAppend | src/Lavary/Menu/Builder.php:614-651 | Without a callback, rendering two position lists one after the other is rendering their concatenation |
| Tree.RenderFromIgnoresLink | src/Lavary/Menu/Builder.php:619-629 | Without a callback, the link attributes carried from earlier items do not change the markup |
| Tree.ForeignKidsPiece | src/Lavary/Menu/Builder.php:639-644 | An item whose own builder reports children, but which has none in the rendered list, renders with an empty nested list |
| Tree.EmptyNested | src/Lavary/Menu/Builder.php:640-643 | An empty nested list is the children tag with the children attributes, opened and closed at once |
| Tree.DividerMarkup | src/Lavary/Menu/Builder.php:646-650 | An item with a divider renders as the item without one, followed by an empty wrapper element with the divider attributes |
| Tree.RawMarkup | src/Lavary/Menu/Builder.php:631-646 | An item without a link or a divider renders as its wrapper, with the attributes, around its bare title |
| Tree.NoHrefAnchor | src/Lavary/Menu/Builder.php:634 | A linked item with no href and no `url`, `route` or `action` in its path has a null URL, and its anchor has no `href` |
| Tree.LeafUrl | src/Lavary/Menu/Item.php:244-257 | A root item added with a plain relative URL gets the generator's URL for `/url` |
| Tree.LeafAnchor | src/Lavary/Menu/Builder.php:633-634 | Such an item's anchor is `<a href="URL">title</a>` |
| Tree.PlainAnchor | src/Lavary/Menu/Builder.php:634 | An anchor without surrounding HTML or link attributes, whose URL is a truthy string, is `<a href="URL">title</a>` |
| Tree.LeafMarkup | src/Lavary/Menu/Builder.php:631-646 | An item without children or divider renders as its wrapper, with its attributes, around its anchor |
| Tree.LeafPiece | src/Lavary/Menu/Builder.php:631-646 | A root leaf renders as `<li attrs><a href="URL">title</a></li>` (or the menu type's wrapper) |
| Tree.AllRoots | src/Lavary/Menu/Builder.php:439-442 | In a menu whose items all have null parents, the roots are all items in order and none has children |
| Sorting.Compare | src/Lavary/Menu/Builder.php:481-494 | The closure returns 0 exactly on loosely equal properties (two arrays: the same keys with loosely equal values, in any order); otherwise it is positive exactly when the first goes after the second in the requested direction |
| Sorting.ArrayPropsLoose | src/Lavary/Menu/Builder.php:485 | `['a'=>1,'b'=>2] == ['b'=>2,'a'=>1]` and `['1'] == [1]` hold, and arrays with different keys differ |
| Sorting.CompareFlip | src/Lavary/Menu/Builder.php:481-494 | When `f` goes after `s`, `s` goes before `f` |
| Sorting.Insert | src/Lavary/Menu/Builder.php:481-494 | Inserting into an ordered list keeps it ordered and adds the element once |
| Sorting.SortPairs | src/Lavary/Menu/Builder.php:481-494 | The sort result is ordered by the closure and a permutation of its input |
| Nodes.Link.constructor | src/Lavary/Menu/Link.php:48-52 | A new link has the given path, no href, no attributes, and is not active |
| Nodes.Link.Active | src/Lavary/Menu/Link.php:59-65 | The builder's active class joins the link's class tokens, and the link is marked active |
| Nodes.Link.Href | src/Lavary/Menu/Link.php:72-77 | The href is the given value |
| Nodes.Link.Secure | src/Lavary/Menu/Link.php:84-89 | `secure` becomes true in the path and no other path key changes |
| Nodes.Link.Attr | src/Lavary/Menu/Link.php:97-114 | The attributes and the answer follow the overload rules of `attr` |
| Nodes.Link.Prop | src/Lavary/Menu/Link.php:122-129 | A name that is none of the declared properties answers exactly what `attr(name)` answers on the link's attributes |
| Nodes.HrefThenUrl | src/Lavary/Menu/Item.php:250-252 | After `href(h)` with a truthy `h`, the item's URL is `h` |
| Nodes.AttrNoArgs | src/Lavary/Menu/Item.php:220-237 | `attr()` and `attr(null)` return the whole array and change nothing |
| Nodes.AttrSetThenGet | src/Lavary/Menu/Item.php:220-237 | `attr(k, v)` with a non-null `v` chains, and a later `attr(k)` yields `v` |
| Nodes.AttrNullValue | src/Lavary/Menu/Item.php:226-233 | `attr(k, null)` is a read: it changes nothing and returns the current value |
| Nodes.AttrMergeWins | src/Lavary/Menu/Item.php:222-224 | `attr(array)` merges with the new keys winning, and chains |
| Nodes.AttrMissing | src/Lavary/Menu/Item.php:226-233 | `attr(k)` on a missing key is null and changes nothing |
| Nodes.DataSetThenGet | src/Lavary/Menu/Item.php:486-513 | `data(k, v)` stores under `strtolower(k)`, so `data(strtolower(k))` yields `v` |
| Nodes.DataReadIsCaseSensitive | src/Lavary/Menu/Item.php:486-513 | The read does not lower-case: `data(K)` with upper-case letters does not see the write |
| Nodes.DataFalseKey | src/Lavary/Menu/Item.php:500 | `data(false, v)` stores under `''`, what `strtolower(false)` gives: `data('')` then yields `v`, and `data(false)` still reads the integer key 0 |
| Nodes.DataTrueKey | src/Lavary/Menu/Item.php:500 | `data(true, v)` stores under the integer key 1, the same entry as `data(1, v)` |
| Nodes.DataSetTwice | src/Lavary/Menu/Item.php:486-513 | Writing the same data pair twice is writing it once |
| Nodes.DataTimesSet | src/Lavary/Menu/Item.php:522-535 | An item the cascade reaches several times ends as if written once |
| Nodes.MarkedOnce | src/Lavary/Menu/Item.php:462-477 | Marking an item active any positive number of times gives the class string of one mark |
| Nodes.AddClassTokens | src/Lavary/Menu/Item.php:474 | After `active()`, the class holds the old tokens and the active class, each once |
| Nodes.AddClassAgain | src/Lavary/Menu/Item.php:462-477 | A second `active()` leaves the class string unchanged |
| Nodes.RawHasNoLink | src/Lavary/Menu/Item.php:129-135 | An item created with `raw` set has no link |
| Nodes.PlainOptionIsUrl | src/Lavary/Menu/Item.php:129-135 | A non-array option becomes the path `['url' => option]` |
| Nodes.ChildOptionsKeys | src/Lavary/Menu/Item.php:159-170 | The child's options name this item as the parent and keep the link choice |
| Nodes.Item.constructor | src/Lavary/Menu/Item.php:118-150 | A new item has the nickname, reserved-key-free group attributes, parent and activation flag its options give; a link exists exactly when the options give a path, which then carries the last group prefix |
| Nodes.Item.Url | src/Lavary/Menu/Item.php:244-257 | No link gives null; a truthy href is returned as it is; otherwise an absolute string `url` option is returned unchanged, and a path with none of `url`, `route` and `action` gives null |
| Nodes.Item.UrlOfView | src/Lavary/Menu/Item.php:244-257 | The object's URL is the URL of its value snapshot |
| Nodes.Item.Attr | src/Lavary/Menu/Item.php:220-237 | The attributes and the answer follow the overload rules of `attr` |
| Nodes.Item.DataHere | src/Lavary/Menu/Item.php:486-513 | The item's own data changes by the `data` write rules (a single write goes under `strtolower`'s key: `false` under `''`, `true` under 1), and the answer is the read of the old data |
| Nodes.Item.Data | src/Lavary/Menu/Item.php:486-513 | The item and every item the cascade reaches end with the write applied as many times as they are reached |
| Nodes.Item.DataWith | src/Lavary/Menu/Item.php:486-513 | The same, in terms of the write function of the call |
| Nodes.Item.CascadeData | src/Lavary/Menu/Item.php:522-535 | The write goes to every descendant as often as the walk reaches it, and the result is whether the item has children |
| Nodes.CollectionData | src/Lavary/Menu/Collection.php:38-51 | Each item of the list, and each descendant the cascade reaches, ends with the write applied once per arrival |
| Nodes.CollectionDataStep | src/Lavary/Menu/Collection.php:40-48 | One item of the broadcast: its own write and its cascade, leaving the tree shape unchanged |
| Nodes.CollectionAttr | src/Lavary/Menu/Collection.php:16-29 | Every item ends with the `attr` call applied once per occurrence in the list |
| Nodes.AttrTimesSet | src/Lavary/Menu/Collection.php:16-29 | After a broadcast `attr(k, v)`, each item's `attr(k)` yields `v` |
| Nodes.CollectionAppend | src/Lavary/Menu/Collection.php:60-67 | Every item's title is the old title followed by the HTML, once per occurrence |
| Nodes.CollectionPrepend | src/Lavary/Menu/Collection.php:77-84 | Every item's title is the HTML, once per occurrence, before the old title; the key is ignored |
| Nodes.Item.Prepend | src/Lavary/Menu/Item.php:265-270 | The title is the HTML followed by the old title |
| Nodes.Item.Append | src/Lavary/Menu/Item.php:278-283 | The title is the old title followed by the HTML |
| Nodes.Item.Before | src/Lavary/Menu/Item.php:291-296 | The before-HTML is the HTML followed by the old before-HTML |
| Nodes.Item.After | src/Lavary/Menu/Item.php:304-309 | The after-HTML is the old after-HTML followed by the HTML |
| Nodes.Item.Divide | src/Lavary/Menu/Item.php:193-200 | The divider is the attributes with `divider` merged into their class |
| Nodes.Item.Add | src/Lavary/Menu/Item.php:159-170 | The child is new, has this item's id as parent, has a link exactly when its options give a path, and is pushed last when the add ends normally |
| Nodes.Item.Raw | src/Lavary/Menu/Item.php:179-184 | The child is new, has this item's id as parent and no link, and is pushed last when the add ends normally |
| Nodes.Item.ChildIsChild | src/Lavary/Menu/Item.php:316-319 | An item whose parent is this id makes `hasChildren()` true |
| Nodes.Item.HasChildrenIff | src/Lavary/Menu/Item.php:316-319 | `hasChildren()` holds exactly when some item's parent loosely equals this id |
| Nodes.Item.All | src/Lavary/Menu/Item.php:356-359 | With the filter corrected, `all()` is the descendants of the item in walk order |
| Nodes.Item.AllHasGrandchildren | src/Lavary/Menu/Item.php:356-359 | A child of a child is among `all()` |
| Nodes.Item.MarkActive | src/Lavary/Menu/Item.php:462-477 | The builder's active class joins the item's class tokens, and `isActive` is set |
| Nodes.Item.UrlActivatesOfView | src/Lavary/Menu/Item.php:364-388 | The object's URL test is the test on its value snapshot |
| Nodes.Item.Targets | src/Lavary/Menu/Item.php:432-454 | The targets of `activate()` start with the item itself and continue with items of the builder, up to the first one met twice; the walk records whether the parent ids lead back to one of them |
| Nodes.Item.Activate | src/Lavary/Menu/Item.php:432-454 | Only the item gets `active`; the item and, with `activate_parents`, each ancestor get the class, on the item or its link as `active_element` says; in link mode a target without a link throws after the earlier targets' links are marked, also on a cycle of parent ids; otherwise a cycle diverges and changes nothing; a parent id that matches nothing ends the walk (the code as written loops: see Findings) |
| Nodes.Item.CheckActivationStatus | src/Lavary/Menu/Item.php:364-388 | Without a URL match nothing changes; with one the outcome is that of `activate()` |
| Nodes.Item.ActivePattern | src/Lavary/Menu/Item.php:462-477 | `active(pattern)` activates exactly when the request path matches the pattern, and otherwise changes nothing |
| Nodes.Item.Nickname | src/Lavary/Menu/Item.php:397-406 | A null argument reads the nickname; any other value sets it |
| Nodes.Item.Id | src/Lavary/Menu/Item.php:415-424 | A null argument reads the id; any other value sets it |
| Nodes.RaiseItems | src/Lavary/Menu/Item.php:443-446 | Item mode: every target gets the class once per arrival and `isActive`; the item is `active` |
| Nodes.RaiseLinks | src/Lavary/Menu/Item.php:443-446 | Link mode: the links of the targets get the class, up to the first target without a link |
| Nodes.WalkItems | src/Lavary/Menu/Item.php:443-452 | Each item ends marked as often as it is a target, and `isActive` exactly when it is one or was already |
| Nodes.WalkLinks | src/Lavary/Menu/Item.php:443-452 | Each link ends marked as often as its item is reached before the first linkless target |
| Nodes.FreshIdInjective | src/Lavary/Menu/Builder.php:82-87 | The fresh ids standing in for `uniqid()` are all different |
| Nodes.Builder.constructor | src/Lavary/Menu/Builder.php:48-56 | A new builder has the name, the configuration, no items and an empty group stack |
| Nodes.Builder.ExtractAttributes | src/Lavary/Menu/Builder.php:318-329 | The attributes are the options merged with the top group, with every reserved key removed |
| Nodes.Builder.UpdateGroupStack | src/Lavary/Menu/Builder.php:211-218 | The argument, merged with the previous top when there is one, is pushed on the stack; the last group prefix becomes the argument's prefix formatted against the previous top, or its own prefix on an empty stack |
| Nodes.Builder.Group | src/Lavary/Menu/Builder.php:194-204 | Earlier items stay in place; a group that ends normally restores the stack it found and has appended exactly the planned items: one per `add`/`raw` of the closure, in order, with its title, a link exactly for an `add` whose options give a path, and that path carrying the prefix of the groups around it; one that fails leaves its entries pushed |
| Nodes.Builder.Run | src/Lavary/Menu/Builder.php:201 | The closure's calls only append new items; when they end normally they restore the stack and the appended items are the planned ones, with their titles, links and prefixed paths |
| Nodes.Builder.Step | src/Lavary/Menu/Builder.php:66-75 | One call of a closure appends the items it plans against the current group stack: one for `add` or `raw`, the planned items of a nested group for `group` |
| Nodes.NestedGroupItem | src/Lavary/Menu/Builder.php:194-278 | An `add(t, u)` inside a group with prefix `b` inside a group with prefix `a` is planned as one item with the path `['url' => u, 'prefix' => 'a/b']` |
| Nodes.PlannedAppend | src/Lavary/Menu/Builder.php:194-204 | The plan of two command lists run one after the other is the two plans joined, the group stack carried over |
| Nodes.Builder.NewItem | src/Lavary/Menu/Builder.php:68-70 | The new item has the option id or a fresh one, the title, and the group attributes, and is not active |
| Nodes.Builder.Start | src/Lavary/Menu/Builder.php:68-70 | The new item's URL test is the one its options and the current group prefix give |
| Nodes.Builder.StartTest | src/Lavary/Menu/Item.php:147-149 | A new item's URL test depends on its options and the group prefix only |
| Nodes.Builder.Admit | src/Lavary/Menu/Builder.php:70-72 | The new item is pushed after its activation check when the check ends normally; otherwise the list is unchanged |
| Nodes.Builder.AdmitChecked | src/Lavary/Menu/Item.php:147-149 | Without a URL match the item is pushed and nothing else changes; with one, `activate()` runs first |
| Nodes.Builder.Add | src/Lavary/Menu/Builder.php:66-75 | The new item has the option parent, activation flag and link choice; its link has no href and the path of the options with the last group prefix set; the counter moves only without an option id; the list grows by the item exactly when the check ended normally |
| Nodes.Builder.Raw | src/Lavary/Menu/Builder.php:97-102 | A raw item has no link and the option parent, and is pushed when the add ends normally |
| Nodes.Builder.Divide | src/Lavary/Menu/Builder.php:181-186 | The last item gets the divider attributes and no other item changes; an empty menu throws |
| Nodes.Builder.WhereExact | src/Lavary/Menu/Builder.php:816-844 | `where<Attr>(x)` keeps exactly the items whose lower-cased property matches |
| Nodes.Builder.WhereOrdered | src/Lavary/Menu/Builder.php:833-843 | The filter keeps the list order |
| Nodes.Builder.FilterByExact | src/Lavary/Menu/Builder.php:833-843 | The filter on a lower-case name keeps exactly the matching items of the list |
| Nodes.Builder.ChildrenAreWhereParent | src/Lavary/Menu/Item.php:326-329 | The children of an id are the `whereParent` filter |
| Nodes.Builder.Find | src/Lavary/Menu/Builder.php:119-122 | `find(x)` is an item of the list whose id loosely equals `x`, or null when none does |
| Nodes.Builder.FindIsWhereIdFirst | src/Lavary/Menu/Builder.php:119-122 | `find` is the first item of `whereId` |
| Nodes.Builder.FirstOfFilter | src/Lavary/Menu/Builder.php:109-122 | The first item of any filter is the lowest-positioned match |
| Nodes.Builder.GetItemFirst | src/Lavary/Menu/Builder.php:109-112 | `get(title)` is the first item whose nickname loosely equals the title, or null |
| Nodes.Builder.ActiveItemFirst | src/Lavary/Menu/Builder.php:171-174 | `active()` is the first item with the `active` flag set, or null |
| Nodes.Builder.RootsExact | src/Lavary/Menu/Builder.php:439-442 | The roots are exactly the items whose parent is loosely null |
| Nodes.Builder.FilterRecursiveAsWritten | src/Lavary/Menu/Builder.php:785-806 | As written, the recursive filter yields an empty collection |
| Nodes.Builder.FilterRecursive | src/Lavary/Menu/Builder.php:785-806 | Corrected, the recursive filter on `parent` yields the descendants of the id |
| Nodes.Builder.SortBy | src/Lavary/Menu/Builder.php:481-494 | The items are a permutation of the old ones, ordered by the closure on the named property |
| Nodes.Builder.SortByCallback | src/Lavary/Menu/Builder.php:469-478 | The callback's array becomes the items; a single value becomes a one-item list |
| Nodes.KeyedOfSorted | src/Lavary/Menu/Builder.php:481-494 | Sorting the property pairs sorts the items themselves |
| Nodes.SortItems | src/Lavary/Menu/Builder.php:481-494 | The sorted items are a permutation, ordered by their property |
| Nodes.Builder.Filter | src/Lavary/Menu/Builder.php:451-458 | The items are the old items the closure keeps, in order; without a closure, nothing changes |
| Nodes.FilteredCount | src/Lavary/Menu/Builder.php:451-458 | The filter keeps an object as often as it occurred, or drops it |
| Nodes.Builder.TakeCollection | src/Lavary/Menu/Builder.php:520-523 | The items are the given list |
| Nodes.Builder.Spawn | src/Lavary/Menu/Builder.php:507-513 | A new builder with the name, this configuration and the given items |
| Nodes.Builder.TopMenu | src/Lavary/Menu/Builder.php:530-533 | A new builder `topLevel` holding the roots |
| Nodes.Builder.AddPlain | src/Lavary/Menu/Builder.php:66-75 | `add(title, url)` gives a linked item with the title whose URL is that of the path `['url' => url]` under the current group prefix; it is pushed when the add ends normally |
| Nodes.Builder.AddEntry | src/Lavary/Menu/Builder.php:545-547 | One add of a derived menu, outside any group, appends one item whose title and URL are the entry's title and the URL of its `url` option |
| Nodes.Builder.CopiedUrl | src/Lavary/Menu/Item.php:244-257 | Re-adding a URL: an absolute URL comes back unchanged, a relative one comes back as the generator's URL for `/url`, and a null URL stays null |
| Nodes.Builder.AddEach | src/Lavary/Menu/Builder.php:545-547 | When every add ends normally, the new builder holds one item per entry, in order, with the entry's title and the URL of the entry's URL re-added outside any group |
| Nodes.Builder.SubMenu | src/Lavary/Menu/Builder.php:540-550 | Without an active item it throws; otherwise one new item per child of the active item, in order, with the child's title and the URL of `add(title, child->url())` |
| Nodes.Builder.SiblingMenu | src/Lavary/Menu/Builder.php:557-575 | Without an active item it throws; otherwise, when its parent (or the root level) has more than one child, one new item per such child with the child's title and the URL of `add(title, child->url())`, else none |
| Nodes.Builder.CrumbMenu | src/Lavary/Menu/Builder.php:582-598 | Without an active item, or with a parent id that matches nothing, it throws; on a cycle it does not end; otherwise one new item per crumb from the root down, with the crumb's title and the URL of `add(title, crumb->url())` |
| Nodes.CrumbLoop | src/Lavary/Menu/Builder.php:587-591 | The while loop produces exactly the crumb trail, or the error or divergence of the trail |
| Nodes.EntriesAt | src/Lavary/Menu/Builder.php:545-547 | The entries of chosen items are those items' entries |
| Nodes.KidFlags | src/Lavary/Menu/Item.php:316-319 | The has-children flag of each listed item is that item's own `hasChildren()`, asked of its own builder |
| Nodes.Builder.RenderInputs | src/Lavary/Menu/Builder.php:612-654 | The render inputs are well formed, have the builder's tree shape, and carry each item's snapshot and its own `hasChildren()` |
| Nodes.Builder.OwnedKids | src/Lavary/Menu/Builder.php:639 | When every item belongs to this builder, an item's has-children flag holds exactly when the render recursion finds children for it |
| Nodes.Builder.Render | src/Lavary/Menu/Builder.php:612-654 | Render returns the render specification of the children of the parent |
| Nodes.Builder.AsUl | src/Lavary/Menu/Builder.php:667-670 | The roots rendered with `li` wrappers inside `<ul attrs>` |
| Nodes.Builder.AsOl | src/Lavary/Menu/Builder.php:683-686 | The roots rendered with `li` wrappers inside `<ol attrs>` |
| Nodes.Builder.AsDiv | src/Lavary/Menu/Builder.php:699-702 | The roots rendered with `div` wrappers inside `<div attrs>` |
| Nodes.ReachesWalk | src/Lavary/Menu/Item.php:522-535 | The items the cascade reaches are the items of the descendants walk |
| Registry.LoadConfGet | src/Lavary/Menu/Menu.php:96-106 | Each option is the named entry's value when the entry has it, else the default |
| Registry.LoadConfIgnoresCase | src/Lavary/Menu/Menu.php:99 | The configuration name is looked up without regard to case |
| Registry.DefaultsApply | src/config/settings.php:15-24 | A menu without its own entry activates by URL, activates parents, and puts the class `active` on the item |
| Registry.Menu.constructor | src/Lavary/Menu/Menu.php:24-28 | A new registry is empty |
| Registry.Menu.Exists | src/Lavary/Menu/Menu.php:37-40 | True exactly when the name is a key of the registry; in a valid registry the builder found has that name and the name's configuration, and every collected menu exists |
| Registry.Menu.Get | src/Lavary/Menu/Menu.php:115-118 | The stored builder of the name, which has that name, or null when none is stored |
| Registry.Menu.Collection | src/Lavary/Menu/Menu.php:125-138 | Every stored builder is a registered builder and is what `get` returns |
| Registry.Menu.Make | src/Lavary/Menu/Menu.php:67-86 | A non-callable value changes nothing and gives null; otherwise the name's builder, the existing one if any or a new one configured for the name, is stored and returned |
| Registry.Menu.MakeOnce | src/Lavary/Menu/Menu.php:50-57 | An existing name gives null and changes nothing; otherwise as `make` with a new builder |

## Left out

- Framework calls are parameters of `Env`:
  - URL generation (`URL::to`, `URL::route`, `URL::action`);
  - the request (`url`, `fullUrl`, `path`);
  - `parse_url`'s scheme and path;
  - `e()`;
  - the nickname derivation through `Str::camel` and `Str::ascii`.
- `uniqid()` is replaced by a counter `nextId` that gives distinct string ids (`Nodes.FreshIdInjective`). Uniqueness against option-supplied ids is not modelled.
- `config()`, `View::share` and the framework registration (service providers, facade, Blade directives and views) are not part of this model.
- `MenuItem.php` is not part of this model: it is an older class that does not fit the current `Link` and `Builder`.
- `Builder::mergeStatic` is left out: it depends on PHP's query-string parser.
- The callbacks of `make`, `group` and the render callback are parameters:
  - `make`'s callback: the caller runs it on the returned builder;
  - the closure of `filter`: a pure test on an item snapshot. PHP's `Collection::filter` also passes the item's key, and the closure may change the item; neither is modelled.
  - a `group` closure is a list of `Cmd` calls (`add`, `raw`, nested `group`);
  - the render callback is a function on item snapshots and attribute arrays.
- Registry.Menu.Make: exceptions raised by the callback, and `View::share`, are not modelled.
- Registry.Menu.Make: the model stores a new builder in the registry before the caller runs the callback. PHP runs the callback first (Menu.php:78) and stores afterwards (Menu.php:81), so inside the callback of a first `make`, `get(name)` and `all()` do not see the new menu in PHP but do in the model.
- Full PCRE semantics of the RESTful test and of `active($pattern)` are left out. Paths are taken to contain no regex metacharacters besides the `/*` wildcard.
- PHP loose comparison is modelled for null, booleans, integers, strings, lists and, in `sortBy`, two arrays. Numeric-string corner cases are not.
- Sorting.Compare: two object properties (`builder`, `link`) always compare equal. PHP compares two objects of one class by their properties, and the model's properties do not carry them.
- Nodes.KeyOf: a string key stays a string key. PHP turns a decimal-integer string key such as `"5"` into the integer key 5, so `attr('5', v)` and `attr(5, v)` write the same entry in PHP but two entries in the model.
- Nodes.Builder.SortBy: the PHP method first asks `is_callable($sort_by)` and then either runs the callback or sorts by the property. The model has two methods, `SortByCallback` and `SortBy`, and the caller picks one; PHP's own test of callability is not modelled.
- Sort stability is not claimed: the sort is proved ordered and a permutation only.
- `Collection` keys: the model's lists are re-indexed. `filter` and `sort` in PHP keep the old keys until `values()`.
- The returned `$this` of chaining methods is not modelled; `attr` and `data` return a `Reply` that says whether they chain.
- `Builder::conf` on a missing key reads as null (PHP raises a notice). The model follows the code, not a hard failure.
- Nodes.Builder.Add: states the new item's constant fields, the id counter, the list change and the activation outcome (`Admitted`). The new item's mutable fields after the check are stated only by `Nodes.Builder.Start` and `Nodes.Builder.NewItem`, which run before it.
- Nodes.Builder.Group: states the number, order, titles, link presence and link paths (with the group prefix) of the items the closure adds. The attributes the new items carry are stated per item by `Nodes.Builder.Add`, not by `Group` or `Run`, because a later activation in the same closure can still change them.
- Nodes.Builder.Group: follows the code, which pops the group stack only when the closure returns. A failing closure leaves its entry on the stack, so `group` is not exception-safe.
- Nodes.CollectionData: the broadcast `data` is modelled over items that all belong to one builder. The cascade of each item walks that builder's list.
- Nodes.CollectionAttr: `attr` with no arguments on a collection is forwarded to each item as `attr(null)`, which the item treats as a read.
- Nodes.Builder.SubMenu: states each new item's title and URL: the URL of `add(title, url)` with the copied item's URL, outside any group. The new items' other fields (nickname, attributes, activation) are not stated.
- Nodes.Builder.SiblingMenu: states each new item's title and URL, as for `SubMenu`. The new items' other fields (nickname, attributes, activation) are not stated.
- Nodes.Builder.CrumbMenu: requires that every item of the builder belongs to it (`Owned()`), because the trail is computed on this builder's list and item ids alone; PHP asks each item's own builder for its parent. Items shared between builders are outside this operation.
- Nodes.Builder.CrumbMenu: the trail is computed on the item ids alone. A cycle is detected by the positions already visited, and is then reported as divergence.
- Nodes.Builder.CrumbMenu: states each new item's title and URL, as for `SubMenu`. The new items' other fields (nickname, attributes, activation) are not stated.
- Nodes.Item.Activate: the walk up the ancestors is stated for the chain the ids give. When `activate_parents` is on and a parent id names no item of the menu, the model ends with `Done` where the PHP code never returns, because the model walks the ancestors with the corrected step of the Findings.
- Nodes.Item.CheckActivationStatus: on a URL match, when `activate_parents` is on and a parent id names no item of the menu, it ends with `Done` where the PHP code never returns, because the model walks the ancestors with the corrected step of the Findings.
- Nodes.Item.ActivePattern: on a matching pattern, when `activate_parents` is on and a parent id names no item of the menu, it ends with `Done` where the PHP code never returns, because the model walks the ancestors with the corrected step of the Findings.
- Nodes.Builder.AdmitChecked: with `auto_activate` on and a URL match, when `activate_parents` is on and a parent id names no item of the menu (such as a `parent` option naming an id not yet added), it pushes the item and ends with `Done` where the PHP code never returns, because the model walks the ancestors with the corrected step of the Findings.
- Nodes.Builder.Admit: the same input as for `AdmitChecked` ends with `Done` where the PHP code never returns, because the model walks the ancestors with the corrected step of the Findings.
- Nodes.Builder.Add: with `auto_activate` on, a URL match and a `parent` option that names no item, it ends with `Done` where the PHP code never returns, because the model walks the ancestors with the corrected step of the Findings.
- Nodes.Builder.Raw: reaches the activation check through `add`, so the same input ends with `Done` where the PHP code never returns, because the model walks the ancestors with the corrected step of the Findings.
- Nodes.Item.Add: the child is added through `Builder::add`; the same input ends with `Done` where the PHP code never returns, because the model walks the ancestors with the corrected step of the Findings.
- Nodes.Item.Raw: the child is added through `Builder::add`; the same input ends with `Done` where the PHP code never returns, because the model walks the ancestors with the corrected step of the Findings.
- Nodes.Builder.Group: an `add` in the closure on the same input ends with `Done` where the PHP code never returns, because the model walks the ancestors with the corrected step of the Findings.
- Nodes.Builder.Run: an `add` in the closure on the same input ends with `Done` where the PHP code never returns, because the model walks the ancestors with the corrected step of the Findings.
- Nodes.Builder.Step: an `add` on the same input ends with `Done` where the PHP code never returns, because the model walks the ancestors with the corrected step of the Findings.
- Termination on cyclic parent ids: `render`, the `data` cascade and `Item::all()` take a depth bound `n` with `Bounded(...)` as a precondition. A cycle makes these PHP recursions run forever, and cyclic menus are outside those operations. `activate` and `crumbMenu` instead detect a cycle by the positions they have met. On a cycle, `activate` in link mode throws at the first target without a link, as the PHP code does; in item mode, or when every target has a link, the PHP code never returns and the model reports `Diverges` with nothing changed.
- The four-item menu of the package's test is not rendered as a whole. `Tree.LeafPiece` gives each of its items' markup, and `Tree.AllRoots` gives their order.

## Findings

| source | as written | input that shows it | evidently intended | confidence | as-written member | corrected member |
|---|---|---|---|---|---|---|
| src/Lavary/Menu/Builder.php:791 | The recursive filter's guard asks the builder, `$this->hasProperty($attribute)`. That call reaches `__call`, which returns false for a name that is not `where…`, so the closure returns false on the first item and `each` stops. The result is always empty, for `where<Attr>(v, true)` and `Item::all()` alike. | One root item: `whereParent(null)` finds it, `whereParent(null, true)` finds nothing. | The guard asks the item, as the plain filter does (`$item->hasProperty`), so that the result is the matching items and their descendants. | not executed | Tree.FilterRecursiveCounterexample | Tree.FilterRecursiveParent |
| src/Lavary/Menu/Item.php:448-452 | With `activate_parents`, `activate()` looks up the parent by id and calls `activate($parent, true)` on it. When the parent id is truthy but matches no item, the lookup gives null, and `activate(null, true)` targets the original item again, so the walk goes round the same targets forever (in link mode it throws instead when one of them has no link). | An item with parent id `missing` in a menu without such an item. | Stop at a parent id that matches no item. | not executed | Tree.DanglingParentLoops | Tree.NextCorrected |
