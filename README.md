# EPUB translator, modelled in Dafny

The repository holds two command-line translators for EPUB books. Both
translate from English to Italian through a chat-completion service.

- `epub_translator_pro.py` is the batched translator. It opens the book and takes its document items. It parses each one and keeps the string nodes that are not blank and whose parent is neither `script` nor `style` (the "text elements"). It cuts them into consecutive batches of `--batch-size` and sends each batch in one request. The strings that come back are written over the batch's nodes by position, with `zip`. A rate-limit error waits and asks again. Any other error keeps the batch as it was. With `--dry-run`, it only counts chapters and text blocks, takes up to three samples and estimates time and cost.
- `translate_epub.py` is the unbatched translator. It sends every eligible string node on its own and replaces it with the first choice of the answer. Any error keeps the node.

The model is split by concern:

- `text.dfy` (`Text`): Python's `str.strip()`, blank strings, and the `.epub` suffix test.
- `soup.dfy` (`Soup`): a parsed document as the ordered list of its string nodes, as `find_all(text=True)` returns them. Each node has its text and its parent's tag name. It also holds the eligibility filter and its list of positions.
- `epub.dfy` (`Epub`): a book as the ordered list of its items. `Book` is a class whose `SetContent` replaces a document's content in place.
- `batching.dfy` (`Batching`): `range(0, n, size)` with slices, as a list of batches, and the facts that make it a partition.
- `epub_translator_pro.dfy` (`EpubTranslatorPro`): the batched translator.
  - The batch loop runs over a parsed document held in an `array`, which is mutated in place.
  - The book loop runs over `Book`.
  - The dry-run analysis is `AnalyzeEpub`.
  - The whole run is `ProcessEpub`.
- `translate_epub.dfy` (`TranslateEpub`): the unbatched translator. It also proves that the batched translator with a batch size of 1 agrees with it when the service never answers with a rate-limit error. It shows that the two differ on a rate limit: the batched translator retries, the unbatched one keeps the text.

## The translator and request numbering

The chat-completion service is a parameter: a total function from a request number and the request's texts to a reply. Request numbers count from 0 over the whole run. The same texts may therefore get different answers at different points of the run. A batched reply is one of three things:
- the contents of the returned choices;
- a rate-limit error followed by what the retried request yields;
- any other exception.

Replies are finite values, so a reply ends after finitely many rate-limit errors.

Every method is proved against a function of its inputs and old state:

- `TranslateDocument` against `TranslatedDocument`. That function folds the loop body (`WriteBatch`) over the document's batches.
- `TranslateBook` against `TranslatedItems`.
- `AnalyzeEpub` against `Analysis`.
- `ProcessEpub` against `Processed`.
- For the unbatched translator, `TranslateSoup` against `TranslatedNodes` and `ProcessEpub` against its own `TranslatedItems`.

The batch loop walks the list `Batches(text_elements, batch_size)`. `BatchesSlices` and `BatchExists` prove that this list holds exactly the slices `text_elements[i:i + batch_size]` at the offsets of `range(0, len(text_elements), batch_size)`.

## Behaviour worth knowing

- In the batched translator, a rate-limit error is retried by recursion, as often as it recurs, with no bound on the number of retries. Any other error is not retried. The unbatched translator catches a rate-limit error like any other exception and keeps the node's text.
- The dry run makes no translator request at all. It only counts and samples.
- The returned text is written back as it comes, without any check. The unit of translation is a string node.
- The only nodes that are never touched are blank nodes and nodes directly under `script` or `style`.
- The batch size is not checked to be positive.
  - A size of 0 makes the dry run's estimate divide by zero. It also makes the first document's `range` raise. Either way, `sys.exit` ends the run.
  - A negative size gives empty ranges, so the book is written back with every string node unchanged. Its bytes can still change, because each document is decoded with replacement and re-serialised (epub_translator_pro.py:150, 164).
- The batched translator pauses after every batch. The unbatched translator pauses after every document.

## Model

| member | source | states |
|---|---|---|
| `Text.TrimStart` | epub_translator_pro.py:114 | the left half of `strip()`: the result is a suffix of the input, everything cut off is whitespace, and the result does not start with whitespace |
| `Text.TrimEnd` | epub_translator_pro.py:114 | the right half of `strip()`: the result is a prefix of the input, everything cut off is whitespace, and the result does not end with whitespace |
| `Text.StripEmptyIffBlank` | epub_translator_pro.py:107-108 | `t.strip()` is empty exactly when `t` consists of whitespace only |
| `Text.EpubSuffixIff` | epub_translator_pro.py:60-61 | `input.lower().endswith('.epub')` accepts exactly the paths ending in a dot followed by e, p, u, b in any case |
| `Soup.EligibleIff` | epub_translator_pro.py:151-152 | the filter `t.strip() and t.parent.name not in ['script', 'style']` holds exactly for the eligible nodes (not blank, parent neither `script` nor `style`) |
| `Soup.Selected` | epub_translator_pro.py:151-152 | `text_elements` lists only eligible nodes, by position within the document, in strictly increasing document order |
| `Soup.SelectedComplete` | epub_translator_pro.py:151-152 | every eligible node is among `text_elements` |
| `Soup.SelectedRank` | translate_epub.py:73-75 | an eligible node's position among the eligible nodes, which numbers its request, is the number of eligible nodes before it |
| `Epub.DocumentsEmptyIff` | epub_translator_pro.py:146 | the list of document items is empty exactly when the book has no item of type document |
| `Epub.DocumentsAppend` | epub_translator_pro.py:146 | the filter keeps the book's order: the documents of two runs of items laid end to end are those of the first followed by those of the second |
| `Epub.DocumentsMembership` | epub_translator_pro.py:146 | a content is listed exactly when the book has a document item with that content |
| `Epub.Book.SetContent` | epub_translator_pro.py:164 | `set_content` replaces the content of one document item and leaves every other item as it was |
| `Batching.BatchesConcat` | epub_translator_pro.py:155-156 | the batches, put back together in order, are exactly `text_elements`: nothing dropped, repeated or reordered |
| `Batching.BatchesShape` | epub_translator_pro.py:155-156 | every batch is non-empty and holds at most `batch_size` elements; every batch but the last holds exactly `batch_size` |
| `Batching.BatchesCount` | epub_translator_pro.py:155 | a list of n elements gives ceil(n / batch_size) batches |
| `Batching.BatchesSlices` | epub_translator_pro.py:155-156 | batch b is `text_elements[b * batch_size : b * batch_size + batch_size]`, with b * batch_size inside the list |
| `Batching.BatchExists` | epub_translator_pro.py:155 | there is a batch number c exactly when `range(0, n, batch_size)` visits the offset c * batch_size |
| `Batching.BatchesOrdered` | epub_translator_pro.py:151-156 | batches cut from positions in document order are in document order too, with no position in two batches, and keep the positions' bounds |
| `EpubTranslatorPro.TranslateBatchSettles` | epub_translator_pro.py:63-89 | after any number of rate-limit retries, `translate_batch` returns the settled reply's choice contents, or its input when the settled reply is another exception |
| `EpubTranslatorPro.WriteBackAt` | epub_translator_pro.py:159-160 | after the `zip` loop, node k of the batch holds entry k of the translated list when there is one, and keeps its text when the list is shorter; its parent is kept |
| `EpubTranslatorPro.WriteBackFrame` | epub_translator_pro.py:159-160 | the `zip` loop touches no node outside the batch |
| `EpubTranslatorPro.WriteBackParents` | epub_translator_pro.py:159-160 | `replace_with` swaps strings in place and keeps every node's parent |
| `EpubTranslatorPro.WriteBackSame` | epub_translator_pro.py:87-89 | writing back the batch's own texts (the fallback of `translate_batch`) keeps every node's parent and text |
| `EpubTranslatorPro.ApplyBatchesAt` | epub_translator_pro.py:155-162 | batches in document order do not see each other's writes: node k of batch b takes entry k of the answer to that batch's original texts, sent as the b-th request of the loop |
| `EpubTranslatorPro.ApplyBatchesFrame` | epub_translator_pro.py:155-162 | the batch loop touches no node that is in none of the batches |
| `EpubTranslatorPro.ApplyBatchesParents` | epub_translator_pro.py:155-162 | the batch loop keeps every node's parent |
| `EpubTranslatorPro.ApplyBatchesFailing` | epub_translator_pro.py:87-89 | when every request ends in an exception other than a rate limit, the batch loop keeps every node's parent and text |
| `EpubTranslatorPro.DocumentFrame` | epub_translator_pro.py:150-164 | a translated document keeps its node count, order and parents, and its blank nodes and nodes under `script` or `style` come out unchanged |
| `EpubTranslatorPro.DocumentBatchResult` | epub_translator_pro.py:155-160 | batch b of a document is the slice of `text_elements` at offset b * batch_size and is sent as request base + b; node k of it takes entry k of the answer, or keeps its text when the answer is shorter |
| `EpubTranslatorPro.FailingTranslatorKeepsDocument` | epub_translator_pro.py:87-89 | a translator whose every request fails leaves every node of a document with its parent and text |
| `EpubTranslatorPro.SingleChoiceKeepsRestOfBatch` | epub_translator_pro.py:80 | when every answer carries a single choice, only the first node of each batch is replaced; nodes 2 to n of every batch keep their text |
| `EpubTranslatorPro.ReplaceBatch` | epub_translator_pro.py:159-160 | the in-place `zip` loop over the parsed document leaves exactly the write-back of the translated list over the batch |
| `EpubTranslatorPro.TranslateDocument` | epub_translator_pro.py:151-162 | the in-place batch loop leaves the document's nodes as `TranslatedDocument` says, and makes one request per batch |
| `EpubTranslatorPro.DocumentCallsCount` | epub_translator_pro.py:155 | a document makes ceil(n / batch_size) requests for n text elements when the batch size is positive, and none when it is negative |
| `EpubTranslatorPro.TranslatedItemsAt` | epub_translator_pro.py:146-164 | item d of the translated book is item d translated on its own, its first request numbered after all requests of the items before it; other items are kept |
| `EpubTranslatorPro.BookFrame` | epub_translator_pro.py:146-164 | the translation keeps the items, their kinds and order, every non-document item, every document's node count and parents, and every blank or `script`/`style` node |
| `EpubTranslatorPro.FailingTranslatorKeepsBook` | epub_translator_pro.py:87-89 | a translator whose every request fails leaves every item of the book with the same parents and texts |
| `EpubTranslatorPro.NegativeBatchSizeKeepsBook` | epub_translator_pro.py:155 | a negative batch size makes every range empty: no request is made and every string node of the book is unchanged |
| `EpubTranslatorPro.RequestsWithBatchSizeOne` | epub_translator_pro.py:110 | with a batch size of 1, the translation makes exactly as many requests as the dry run counts text blocks |
| `EpubTranslatorPro.EstimateIsLowerBound` | epub_translator_pro.py:118 | the dry run's `text_blocks / batch_size` never exceeds the number of requests (and pauses) the translation makes, since every document rounds its batch count up |
| `EpubTranslatorPro.Sample` | epub_translator_pro.py:114 | a text of at most 200 characters is sampled as it is, unstripped; a longer one gives its stripped text cut to 200 characters followed by "..." |
| `EpubTranslatorPro.Samples` | epub_translator_pro.py:113-115 | the dry run keeps at most three samples |
| `EpubTranslatorPro.SamplesAreFirstThree` | epub_translator_pro.py:113-115 | the samples are those of the first three documents that have a text element, in document order |
| `EpubTranslatorPro.AnalyzeEpub` | epub_translator_pro.py:91-121 | `analyze_epub` reports the number of documents, the number of text elements and the samples; a batch size of 0 raises in the time estimate, and then nothing is reported |
| `EpubTranslatorPro.ProcessedOutcomes` | epub_translator_pro.py:123-170 | of the ways a run can end that are modelled, it aborts exactly when the batch size is 0 and either it is a dry run or the book has a document item; a dry run never writes the book |
| `EpubTranslatorPro.TranslateContent` | epub_translator_pro.py:150-164 | one document's loop body yields `TranslatedDocument` of its nodes and the number of its batches |
| `EpubTranslatorPro.TranslateBook` | epub_translator_pro.py:146-164 | the loop over the document items leaves the book as `TranslatedItems` says, with request numbers running on from one document to the next |
| `EpubTranslatorPro.ProcessEpub` | epub_translator_pro.py:123-170 | the run's outcome is `Processed`: report, write or abort. The book changes only when it is written, and then it holds exactly what is written |
| `TranslateEpub.RequestOrder` | translate_epub.py:73-76 | requests go out in document order: the p-th eligible node is translated by request base + p, with its own original text |
| `TranslateEpub.FailingTranslatorKeepsNodes` | translate_epub.py:53-55 | a translator whose every request raises, with a rate-limit error or another exception, leaves a document unchanged |
| `TranslateEpub.TranslateSoup` | translate_epub.py:73-76 | the in-place loop over `find_all(text=True)` leaves the document as `TranslatedNodes` says and makes one request per eligible node |
| `TranslateEpub.NodesFrame` | translate_epub.py:73-76 | a translated document keeps its node count, order and parents, and its blank nodes and nodes under `script` or `style` come out unchanged |
| `TranslateEpub.TranslatedItemsAt` | translate_epub.py:68-78 | item d of the translated book is item d translated on its own, its first request numbered by the text blocks before it; other items are kept |
| `TranslateEpub.TranslateContent` | translate_epub.py:70-78 | one document's loop body yields `TranslatedNodes` of its nodes and one request per eligible node |
| `TranslateEpub.ProcessEpub` | translate_epub.py:57-85 | the loop over the document items leaves the book as `TranslatedItems` says; the number of requests equals the dry-run count of text blocks |
| `TranslateEpub.SizeOneBatch` | epub_translator_pro.py:155-156 | with a batch size of 1, batch p holds exactly the p-th text element |
| `TranslateEpub.SizeOneOutput` | translate_epub.py:52-55 | unless the request is rate-limited, a one-text batch gets back the same text as the single request of `translate_text`, including when the answer has no choice or raises |
| `TranslateEpub.SizeOneAgreesAt` | translate_epub.py:73-76 | for a service that never rate-limits, each node of a document comes out the same from both translators at batch size 1 |
| `TranslateEpub.SizeOneAgrees` | translate_epub.py:73-76 | with a batch size of 1 and a service that never rate-limits, the batched translator sends the same texts in the same order as the unbatched one and leaves the same document |
| `TranslateEpub.SizeOneAgreesOnBook` | translate_epub.py:68-78 | with a batch size of 1 and a service that never rate-limits, the two translators leave the same book |
| `TranslateEpub.RateLimitDiverges` | translate_epub.py:53-55 | a request that is rate-limited once and then answered is written by the batched translator, which waits and retries, while the unbatched one catches the rate limit and keeps the node as it was |

## Left out

- The chat-completion service is a parameter. The model, temperature and system prompt of each request only shape that request's answer and are not modelled. The batched script's `request_timeout=30` (epub_translator_pro.py:78) is client behaviour: a slower request raises inside `translate_batch` and keeps the batch (epub_translator_pro.py:87-89), while the unbatched script waits for the answer. Within the model such a timeout is just one more exception reply. A rate limit that never ends cannot be expressed, because a reply is a finite value. The source would recurse until Python's recursion limit.
- Reading and writing the EPUB archive is left out: `read_epub`, `write_epub`, `get_content`, UTF-8 decoding, HTML parsing and serialisation (`str(soup)`). The batched translator decodes with replacement (epub_translator_pro.py:150). The unbatched one decodes strictly (translate_epub.py:70), so invalid UTF-8 raises there and ends the run. A document's content is its list of string nodes.
- The kind of a string node is not modelled. `find_all(text=True)` also returns comments, doctypes, declarations and processing instructions, and a non-blank one under the document root is translated like text. Writing a plain `str` over such a node turns it into an ordinary text node.
- `time.sleep`, `tqdm` progress bars and every `print` are left out. A negative `--sleep` makes `time.sleep` raise `ValueError`: after the first batch in the batched translator (epub_translator_pro.py:162), after the first document in the unbatched one (translate_epub.py:79). The run then ends through `sys.exit` without writing the book; the model does not have this outcome.
- Startup checks that only look at the environment are left out: the API key variable, `argparse`, and the existence of the input file. Only the `.epub` suffix test is modelled (`Text.EpubSuffixIff`), not the `sys.exit` that follows it.
- The `--max-chars` option is parsed but never used by the source.
- `estimated_time` and `estimated_cost` are floating-point values and are not computed. Only the division by the batch size, which raises at 0, is modelled, along with how the estimated request count relates to the real one (`EstimateIsLowerBound`).
- Exceptions raised by the EPUB and HTML libraries, which end the run through `sys.exit`, are left out. Only the exceptions caused by a batch size of 0 are modelled, as the `Aborted` outcome.
- `str.lower()` is modelled for ASCII letters only, which is all the `.epub` suffix test needs.
- A choice whose content is not a string is not modelled. The two translators' answers are lists of strings.
- EpubTranslatorPro.ProcessedOutcomes: the "exactly when" covers only a batch size of 0. A negative `--sleep`, an exception of the EPUB or HTML library, and a failure to write the book also abort a run, and are not modelled.
- EpubTranslatorPro.ProcessEpub: a run that `Processed` calls `Written` can still end through `sys.exit` on a negative `--sleep` or a library exception; the model does not cover those aborts.
- TranslateEpub.ProcessEpub: within the model the book is always written. The strict UTF-8 decoding at translate_epub.py:70, a negative `--sleep` at translate_epub.py:79 and library exceptions can end the run through `sys.exit` instead, and are not modelled.
- EpubTranslatorPro.WriteBackSame: states that every node keeps its parent and text. Node kind is not modelled: the fallback writes plain `str` values (epub_translator_pro.py:89, 159-160), which turn a comment, doctype or processing-instruction node into an ordinary text node.
- EpubTranslatorPro.ApplyBatchesFailing: keeps parents and texts only. For the reason above, a comment, doctype or processing-instruction node in a failed batch becomes an ordinary text node.
- EpubTranslatorPro.FailingTranslatorKeepsDocument: keeps parents and texts only. A comment, doctype or processing-instruction node of the document becomes an ordinary text node, as above.
- EpubTranslatorPro.FailingTranslatorKeepsBook: keeps parents and texts only, for the same reason as `FailingTranslatorKeepsDocument`.
- TranslateEpub.SizeOneOutput: requires a response that is not a rate-limit error (see `RateLimitDiverges`). It also leaves node kind out: on an exception `translate_text` returns the node itself (translate_epub.py:55), so a comment stays a comment, while the batched fallback turns it into text. It also assumes one service that answers both scripts' requests for the same text alike, although the scripts send different requests: different system prompts (epub_translator_pro.py:69-75, translate_epub.py:45), default models (epub_translator_pro.py:40, translate_epub.py:28), default temperatures (epub_translator_pro.py:43, translate_epub.py:29), and a 30-second timeout in the batched script only (epub_translator_pro.py:78).
- TranslateEpub.SizeOneAgreesAt: holds for services that never rate-limit only, and for node texts and parents, not node kinds. It also ignores the decoding difference: the batched translator decodes with replacement, the unbatched one strictly. It also assumes one service that answers both scripts' requests for the same text alike, although the scripts send different requests: different system prompts (epub_translator_pro.py:69-75, translate_epub.py:45), default models (epub_translator_pro.py:40, translate_epub.py:28), default temperatures (epub_translator_pro.py:43, translate_epub.py:29), and a 30-second timeout in the batched script only (epub_translator_pro.py:78).
- TranslateEpub.SizeOneAgrees: holds under the same limits as `SizeOneAgreesAt`: no rate limit, texts and parents only, decoding left out, one shared service for both scripts' requests.
- TranslateEpub.SizeOneAgreesOnBook: holds under the same limits as `SizeOneAgreesAt`. A book that is not valid UTF-8 is translated by the batched translator but ends the unbatched run. Like `SizeOneAgreesAt`, it assumes one shared service for both scripts' requests, although their prompts, models, temperatures and timeout differ.
