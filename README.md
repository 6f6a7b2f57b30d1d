# fetch-url-content: text extraction, modelled in Dafny

The `fetch-url-content` edge function fetches a web page and returns its
readable text. It does four things to the parsed page:

1. It removes every `script`, `style`, `nav`, `footer` and `aside` element, in
   place, together with its subtree.
2. It picks the content node: the first `article` in tree order, otherwise the
   first `main`, otherwise the first `body`. If there is none, it fails with
   "Could not find main content".
3. It takes that node's `textContent`.
4. It cleans up the text with `replace(/\s+/g, " ")`, then
   `replace(/\n+/g, "\n")`, then `trim()`.

Before that, the handler rejects a missing or empty `url`, and it rejects a
response whose status is not OK.

The model follows that structure, one module per concern:

- `dom.dfy` (`Dom`): the parsed tree (`Element`, `Text` and `Comment` nodes),
  tree order (`Preorder`), and `textContent` (`TextContent`).
- `arena.dfy` (`Arena`): the document as the mutable object the source
  changes. A `Document` class holds an arena of entries with child-index lists
  and `parentNode` links. `RemoveNoise` is the `querySelectorAll(...).forEach(el
  => el.parentNode?.removeChild(el))` loop, proved to leave exactly the pure
  `Prune` of the tree it started from.
- `prune.dfy` (`Pruning`): `Prune`, the removal as a pure filter on the tree,
  and what it keeps and removes.
- `select.dfy` (`Select`): `querySelector` as a depth-first search, and the
  `article`/`main`/`body` priority chain.
- `normalize.dfy` (`Cleanup`): the three-step cleanup chain, each regular
  expression replace modelled as a left-to-right scan of maximal runs. It also
  holds a reference characterisation: the output is the words of the text
  joined by single spaces.
- `extractor.dfy` (`Extractor`): the pipeline, both as a function of the tree
  (`Extract`) and as the method that prunes the document object in place
  (`ExtractContent`).
- `errors.dfy` (`Errors`) and `handler.dfy` (`Handler`): the thrown errors and
  their messages, and the handler with the network and the parser as inputs.

`\s` and `trim()` use the same set of characters: ECMAScript WhiteSpace
(section 12.2 of ECMA-262) together with LineTerminator (section 12.3). This
set includes `\n`, so line 56 already turns every newline run into a space. The
`\n+` replace of line 57 therefore never matches, and the output never contains
a newline. For a page whose article holds `"  Hello   world.\n\n\nBye. "`, one
might expect `"Hello world.\nBye."`; the code gives `"Hello world. Bye."`. The
model follows the code (`Cleanup.NewlineStepIsDead`,
`Extractor.ExtractedTextIsNormalized`).

Strings are sequences of Unicode scalar values. Every character of the
whitespace set lies in the Basic Multilingual Plane, so scanning scalar values
and scanning UTF-16 code units find the same runs.

## Model

| member | source | states |
|---|---|---|
| Arena.Document.QuerySelectorAll | supabase/functions/fetch-url-content/index.ts:42 | the matched indices are exactly the noise elements of the document; unfolded, they are the noise nodes of the tree in tree order |
| Arena.Document.RemoveChild | supabase/functions/fetch-url-content/index.ts:43 | `x` leaves its parent's child list and loses its parent; nothing else changes, and the document stays well formed |
| Arena.Document.RemoveNoise | supabase/functions/fetch-url-content/index.ts:42-43 | removing every match from its parent, one after the other, leaves the document's tree equal to `Prune` of the tree it had before |
| Arena.UnfoldStripped | supabase/functions/fetch-url-content/index.ts:42-43 | detaching exactly the noise elements from their child lists gives the pruned subtrees |
| Arena.StripOneMore | supabase/functions/fetch-url-content/index.ts:43 | one `removeChild` of a match (or none, when it has no parent) extends the set of detached nodes by that match |
| Arena.ForestIdsFollowTreeOrder | supabase/functions/fetch-url-content/index.ts:42 | the arena entries of a forest, listed in order, unfold to the forest's nodes in tree order |
| Arena.SubtreeIdsFollowTreeOrder | supabase/functions/fetch-url-content/index.ts:42 | the arena entries of one subtree, listed in order, unfold to its nodes in tree order |
| Arena.NoiseIdsUnfold | supabase/functions/fetch-url-content/index.ts:42 | filtering the entries by the selector list and unfolding them gives the noise nodes in tree order |
| Pruning.Prune | supabase/functions/fetch-url-content/index.ts:42-43 | no top-level node of the pruned document is a noise element, and it has no more top-level nodes than before; the lemmas below state the rest |
| Pruning.PruneRemovesNoise | supabase/functions/fetch-url-content/index.ts:42-43 | after pruning, no `script`, `style`, `nav`, `footer` or `aside` element remains at any depth |
| Pruning.PruneKeepsTheRest | supabase/functions/fetch-url-content/index.ts:42-43 | the pruned tree's nodes, in order and with their ancestors, are exactly the original nodes that are neither noise elements nor inside one |
| Pruning.PrunedTextIsTextOutsideNoise | supabase/functions/fetch-url-content/index.ts:42-43 | the text left after pruning is the text of the text nodes outside every noise element |
| Pruning.PruneFixedPoints | supabase/functions/fetch-url-content/index.ts:42-43 | pruning leaves a tree unchanged exactly when it holds no noise element |
| Pruning.PruneIdempotent | supabase/functions/fetch-url-content/index.ts:42-43 | pruning twice is pruning once |
| Pruning.PruneIgnoresNoiseContent | supabase/functions/fetch-url-content/index.ts:42-43 | what lies inside a noise element has no effect on the pruned tree |
| Select.QuerySelector | supabase/functions/fetch-url-content/index.ts:46 | a found node has the requested tag |
| Select.SelectContentNode | supabase/functions/fetch-url-content/index.ts:46 | a selected node is an `article`, `main` or `body` element |
| Select.QuerySelectorFindsFirst | supabase/functions/fetch-url-content/index.ts:46 | `querySelector` finds nothing exactly when no node in tree order has the tag, and otherwise finds the first such element in tree order |
| Select.QuerySelectorFindsNothing | supabase/functions/fetch-url-content/index.ts:46-50 | `querySelector` finds nothing exactly when no element of the document has the tag |
| Select.SelectionPriority | supabase/functions/fetch-url-content/index.ts:46 | the first `article` if any, otherwise the first `main`, otherwise the first `body`; nothing exactly when none of the three occurs |
| Select.SelectedNodeIsInDocument | supabase/functions/fetch-url-content/index.ts:46 | the selected node and all its descendants are nodes of the document |
| Dom.DescendantTextInTreeOrder | supabase/functions/fetch-url-content/index.ts:52 | `textContent` of an element is its text-node descendants' data, concatenated in tree order |
| Dom.DescendantTextOfVisits | supabase/functions/fetch-url-content/index.ts:52 | the same text read off the tree-order visits of the nodes |
| Dom.VisitsFollowTreeOrder | supabase/functions/fetch-url-content/index.ts:52 | the visits of a forest are its nodes in tree order, one for one |
| Dom.PreorderHoldsDescendants | supabase/functions/fetch-url-content/index.ts:46-52 | the descendants of a node in the document are in the document |
| Dom.TextContent | supabase/functions/fetch-url-content/index.ts:52 | the `textContent` of an element is the data of its text-node descendants, concatenated in tree order |
| Cleanup.DropRun | supabase/functions/fetch-url-content/index.ts:56-58 | one greedy match of a run: the rest is a suffix, everything dropped is in the class, the rest does not start with one |
| Cleanup.TrimEnd | supabase/functions/fetch-url-content/index.ts:58 | the result is a prefix, everything cut is whitespace, and it does not end in whitespace |
| Cleanup.ReplaceRuns | supabase/functions/fetch-url-content/index.ts:56-57 | a global replace of runs keeps every character outside the class, in order, is never longer than its input, is empty only for empty input, and leaves no class character but the replacement |
| Cleanup.CollapseWhitespace | supabase/functions/fetch-url-content/index.ts:56 | after `\s+` to `" "` the text is no longer, is empty only for empty input, and its only whitespace character is U+0020 |
| Cleanup.CollapseNewlines | supabase/functions/fetch-url-content/index.ts:57 | after `\n+` to `"\n"` the text is no longer and is empty only for empty input |
| Cleanup.Trim | supabase/functions/fetch-url-content/index.ts:58 | the result is a contiguous piece of the input with only whitespace cut from its start and from its end; it neither starts nor ends with whitespace, and it is empty exactly when the input is all whitespace |
| Cleanup.Words | supabase/functions/fetch-url-content/index.ts:55-58 | every element is a non-empty run without whitespace, and a text starting with a non-whitespace character starts its first word |
| Cleanup.CollapseWhitespaceIsSingleSpaced | supabase/functions/fetch-url-content/index.ts:56 | after `\s+` to `" "`, every whitespace character is a space and no two are adjacent; the result is empty only for empty input |
| Cleanup.CollapseNewlinesWithoutNewline | supabase/functions/fetch-url-content/index.ts:57 | the `\n+` replace changes nothing on a text without `\n` |
| Cleanup.NewlineStepIsDead | supabase/functions/fetch-url-content/index.ts:56-57 | the text line 56 leaves has no `\n`, so line 57 never changes it |
| Cleanup.TrimSingleSpaced | supabase/functions/fetch-url-content/index.ts:58 | trimming a single-spaced text gives the canonical form |
| Cleanup.Normalize | supabase/functions/fetch-url-content/index.ts:55-58 | the output of the whole chain has no leading, trailing or adjacent whitespace, no whitespace but U+0020, and no `\n` |
| Cleanup.WordsOfCollapseWhitespace | supabase/functions/fetch-url-content/index.ts:56 | collapsing whitespace runs keeps the words |
| Cleanup.WordsOfTrimEnd | supabase/functions/fetch-url-content/index.ts:58 | trimming keeps the words |
| Cleanup.NormalizeKeepsWords | supabase/functions/fetch-url-content/index.ts:55-58 | the output has the same words as the input |
| Cleanup.NormalizedIsJoinOfWords | supabase/functions/fetch-url-content/index.ts:55-58 | a text in canonical form is its words joined by single spaces |
| Cleanup.NormalizeIsJoinedWords | supabase/functions/fetch-url-content/index.ts:55-58 | the output is the input's words joined by single spaces |
| Cleanup.NormalizeFixedPoints | supabase/functions/fetch-url-content/index.ts:55-58 | the cleanup leaves a text unchanged exactly when it is in canonical form |
| Cleanup.NormalizeIdempotent | supabase/functions/fetch-url-content/index.ts:55-58 | cleaning up twice is cleaning up once |
| Cleanup.RemoveWsIsConcatOfWords | supabase/functions/fetch-url-content/index.ts:55-58 | deleting whitespace from a text gives its words concatenated |
| Cleanup.NormalizeKeepsContent | supabase/functions/fetch-url-content/index.ts:55-58 | deleting all whitespace from the output gives the input with all whitespace deleted |
| Cleanup.NormalizeBlank | supabase/functions/fetch-url-content/index.ts:52-58 | the output is empty exactly when the text is empty or all whitespace |
| Extractor.ExtractContent | supabase/functions/fetch-url-content/index.ts:42-58 | on the document object: the document ends up pruned, and the result is the pipeline's result on the tree it had before |
| Extractor.Extract | supabase/functions/fetch-url-content/index.ts:42-58 | extraction fails only with "Could not find main content", and a successful result is in canonical form without `\n` |
| Extractor.ExtractFailsOnlyWithoutContentNode | supabase/functions/fetch-url-content/index.ts:46-50 | extraction fails, always with "Could not find main content", exactly when the pruned tree has no `article`, `main` or `body` |
| Extractor.ExtractSelectsByPriority | supabase/functions/fetch-url-content/index.ts:42-58 | the text comes from the first `article` of the pruned tree, else its first `main`, else its first `body` |
| Extractor.ExtractedTextAvoidsNoise | supabase/functions/fetch-url-content/index.ts:42-52 | the content node is an element that is not itself a noise element, nothing under it is one, and its text is its text nodes' data in tree order |
| Extractor.SelectedOutsideNoise | supabase/functions/fetch-url-content/index.ts:42-46 | the content node lies outside every noise element of the original document: at its place in tree order, neither it nor any of its ancestors is a `script`, `style`, `nav`, `footer` or `aside` element |
| Extractor.ExtractIgnoresNoise | supabase/functions/fetch-url-content/index.ts:42-58 | changing anything inside the noise elements does not change the result |
| Extractor.ExtractedTextIsNormalized | supabase/functions/fetch-url-content/index.ts:52-58 | the content is in canonical form, has no `\n`, is the words of the text joined by single spaces, and keeps every non-whitespace character |
| Extractor.ExtractBlank | supabase/functions/fetch-url-content/index.ts:48-52 | a content node with no text, or only whitespace, gives `""` rather than an error, and only such a node gives `""` |
| Extractor.ExtractAfterPrune | supabase/functions/fetch-url-content/index.ts:42-58 | extracting from an already pruned tree gives the same result |
| Extractor.ArticleInsideAsideIsNotSelected | supabase/functions/fetch-url-content/index.ts:42-46 | on a page whose only `article` is inside an `aside`, the unpruned tree would select that article, but the pipeline reads the `main` |
| Errors.Message | supabase/functions/fetch-url-content/index.ts:18-50 | the reported texts are "URL is required", "Failed to fetch URL: " followed by the status text, "Failed to parse HTML" and "Could not find main content"; a rejected fetch reports its own message |
| Errors.MessageIdentifiesError | supabase/functions/fetch-url-content/index.ts:18-50 | apart from a rejected fetch, the reported message determines the error and, for a failed response, its status text |
| Handler.FetchUrlContent | supabase/functions/fetch-url-content/index.ts:15-60 | "URL is required" exactly when `url` is missing or empty; a reply with content echoes the url and carries text in canonical form |
| Handler.UrlRequiredFirst | supabase/functions/fetch-url-content/index.ts:18-20 | "URL is required" exactly when `url` is missing or empty, whatever the network and parser would do |
| Handler.FailedResponseStopsEarly | supabase/functions/fetch-url-content/index.ts:29-31 | a non-OK status gives "Failed to fetch URL: " with its status text, whatever the parser would do |
| Handler.SuccessIsExtraction | supabase/functions/fetch-url-content/index.ts:15-60 | content is returned exactly for a non-empty url, an OK response, a parsed document and a successful extraction; it echoes the url and is the extraction's result |
| Handler.ParsedDocumentErrors | supabase/functions/fetch-url-content/index.ts:36-50 | once the document is parsed, the only possible error is "Could not find main content", exactly when extraction fails |

## Left out

- The HTTP server is not modelled: `serve`, the OPTIONS and CORS handling, JSON decoding of the request and encoding of the reply, and the status 500 mapping in the catch block. They are I/O plumbing. The handler returns the error value; `Errors.Message` gives the text the reply would carry.
- A request `url` that is present but not a string, and a request body that is not JSON, are not modelled. `url` is `Option<string>`, and only absence and the empty string are falsy.
- The network `fetch`, its User-Agent header and `response.text()` are not modelled. They are the input `fetch`, which gives a status, a status text and a body, or a rejection with a message.
- HTML parsing by `deno_dom` is not modelled. It is the input `parse`, which gives the document's tree or nothing. `ExtractContent` takes the parsed document object as an arena in which every child has a larger index than its parent. Building such an arena from the parser's tree, with `View()` equal to that tree, is not modelled.
- Document types, processing instructions and attributes are not modelled. None of them affects tag selection or `textContent`.
- `console.log` and `console.error` are not modelled. They have no effect on the result.
- `Arena.Document.RemoveChild` removes every occurrence of the child from the parent's list. A DOM child list holds each node at most once, so this is the same as removing the single occurrence.
- `textContent || ""` (line 52): the selected node is always an element, and an element's `textContent` is never null. The fallback is therefore not modelled as a separate case.
- `src/components/InputForm.tsx` is not part of this model. It holds the calling UI, and its only logic is a `trim()` emptiness check.
