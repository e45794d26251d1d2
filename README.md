# email-sender scheduler and template logic in Dafny

This project models the logic of `email-sender` that does not touch files or the network.

**Job scheduler** (`scheduler/`). Its work is done in four steps:
- It removes the addresses of Chinese providers, then the addresses already done.
- It groups the remaining addresses by the domain after `@`.
- It drains the groups round by round into batches. Each round takes from every domain at most that domain's *tolerance* of addresses, popped from the end of its list.
- It cuts every batch into jobs of at most `batch_size` addresses, with ids `"i"` or `"i_j"`.

**Message** (`sender/message.py`) contributes three routines:
- the template parser, which reads `[TITLE] content` sections;
- the address check, a home-grown regular expression;
- the four-way validation done before a message is built.

## Modules

| module | file | what it models |
|---|---|---|
| `Results` | `results.dfy` | `Option` and `Result`. These stand for Python's `None` and for exceptions. |
| `Text` | `text.dfy` | The `str` built-ins the code relies on: `isspace`/`strip`, `lower`, `needle in hay`, `split` on one character, and decimal rendering of ids. |
| `Classifier` | `classifier.dfy` | `EmailClassifier` as a class. Its fields are updated by `_remove_emails_cn` and `_remove_emails_done`. `classify` builds a `Grouping`, which is the dictionary held as its keys in insertion order plus the lists in parallel. |
| `Batching` | `batching.dfy` | `_get_tolerance`, and `_get_batches` as an imperative method. The method drains a `Grouping` in place and is proved equal to the specification function `Batches`. |
| `Jobs` | `jobs.dfy` | `_split_list`; `_get_jobs` as a method proved equal to `JobsOf`; the arithmetic of `_count_jobs`; the scenario of the scheduler test; the corrected `_get_jobs`. |
| `Message` | `message.dfy` | `_is_valid_email`, `_check` and `_parse_template`. Both regular expressions are modelled as what Python's backtracking matcher computes for them. |

### How the parts connect
- **Batching.** `GetBatches` is proved equal to `Batches`. Conservation, per-domain caps and the batch count are then proved about `Batches`.
- **Jobs.** `GetJobs` is proved equal to `JobsOf`. Size bounds, distinct ids, conservation and the tolerance check of the test are proved about `JobsOf` composed with `Classified` and `Batches`.
- **Template parser.** The parser is checked against a printer. `Render` lays out well-formed `[TITLE]` blocks, and the dictionary the parser returns for that text is proved to be the dictionary of the blocks.

## Model

| member | source | states |
|---|---|---|
| `Text.Strip` | sender/message.py:65 | The result is the slice of the input left after removing a whitespace run at the start and one at the end. It has no whitespace at either end, so exactly the leading and trailing whitespace is dropped. |
| `Text.StripStripped` | sender/message.py:65 | Stripping text that has no whitespace at either end gives it back unchanged. |
| `Text.Lower` | scheduler/email.py:124 | The result has the length of the input, and each character is the lower-case of the input's character at that position. |
| `Text.LowerIsLower` | scheduler/email.py:124 | Lower-cased text is lower case. Text is lower case exactly when lower-casing leaves it unchanged. |
| `Text.ContainsIff` | scheduler/email.py:112 | `needle in hay` holds exactly when the needle occurs at some index of the haystack. |
| `Text.Split` | sender/message.py:68 | `split` on one character always gives at least one piece. |
| `Text.SplitNoSeparator` | sender/message.py:68 | No piece of a split holds the separator. |
| `Text.JoinSplit` | sender/message.py:68 | Joining the pieces of a split with the separator gives back the text. |
| `Text.SplitJoin` | sender/message.py:68 | Splitting the join of separator-free pieces gives back the pieces. |
| `Text.SplitHasSecond` | scheduler/email.py:124 | `split('@')[1]` exists exactly when the text holds an `@`. |
| `Text.NatToString` | scheduler/job.py:94 | The decimal text of a number is non-empty and made of digits. It is one digit exactly when the number is below 10. |
| `Text.ParseNatToString` | scheduler/job.py:94 | Reading the decimal text of a number back gives the number. |
| `Text.NatToStringInjective` | scheduler/job.py:99 | Two numbers with the same decimal text are equal. |
| `Classifier.Partition` | scheduler/email.py:84-90 | A filter pass splits the list into kept and removed addresses. Their lengths add up to the input's. An address is removed exactly when it is in the input and the rule matches it. |
| `Classifier.PartitionInterleaves` | scheduler/email.py:84-93 | The input is an interleaving of the kept and the removed list. So each part keeps the input order, and together they are a permutation of the input. |
| `Classifier.InterleavingMultiset` | scheduler/email.py:84-93 | An interleaving holds exactly the addresses of its two parts. |
| `Classifier.PartitionNothing` | scheduler/email.py:95-107 | A rule that matches no address keeps the whole list and removes nothing. |
| `Classifier.ScreenConserves` | scheduler/email.py:56-63 | After both passes, kept, removed-cn and removed-done together are the loaded addresses, counted with multiplicity. |
| `Classifier.ScreenOrder` | scheduler/email.py:62-63 | The denylist pass runs first, so an address on the denylist is reported only under `cn`, and the two removed lists share no address. It also states exactly which addresses end up kept and which removed as done. |
| `Classifier.ScreenNothing` | scheduler/email.py:81-97 | With `ignore_cn` false and no done list, neither pass changes anything. |
| `Classifier.Key` | scheduler/email.py:124 | `email.lower().split('@')[1].strip()`. An address without `@` gets the empty key; `classify` raises `IndexError` there and never uses it. |
| `Classifier.KeyShape` | scheduler/email.py:124 | A classification key holds no `@`, is lower case and has no whitespace at either end. |
| `Classifier.KeyBetweenAts` | scheduler/email.py:124 | The key of `local@domain…` is the lower-cased, stripped text between the first and second `@`. |
| `Classifier.ClassifiedKeys` | scheduler/email.py:122-129 | The keys of `classify` are exactly the keys of the addresses. |
| `Classifier.ClassifiedLists` | scheduler/email.py:122-129 | An address is in a key's list exactly when it is in the input and has that key. |
| `Classifier.ClassifiedOnce` | scheduler/email.py:122-129 | Every input address is in exactly one list. |
| `Classifier.ClassifiedConserves` | scheduler/email.py:122-129 | The lists together are a permutation of the input. |
| `Classifier.Grouping.constructor` | scheduler/email.py:122 | A new grouping is empty. |
| `Classifier.Grouping.Add` | scheduler/email.py:125-127 | The address is appended to its key's list. An unseen key opens a new list after the others. |
| `Classifier.Grouping.AddNext` | scheduler/email.py:123-127 | One loop pass of `classify` extends the grouping of the addresses before it to the grouping up to and including it. |
| `Classifier.EmailClassifier.constructor` | scheduler/email.py:44-63 | The list and the two removed lists are those of the denylist pass followed by the done pass. |
| `Classifier.EmailClassifier.IsCnDomain` | scheduler/email.py:109-114 | The answer is true exactly when some denylist entry occurs, case-sensitively, anywhere in the whole address. |
| `Classifier.EmailClassifier.RemoveEmailsCn` | scheduler/email.py:81-93 | With `ignore_cn` false nothing changes. Otherwise the list becomes the kept part and `cn` the removed part of the denylist partition. `done` is untouched. |
| `Classifier.EmailClassifier.RemoveEmailsDone` | scheduler/email.py:95-107 | With an empty done list nothing changes. Otherwise the list becomes the kept part and `done` the removed part of the done partition. `cn` is untouched. |
| `Classifier.EmailClassifier.Classify` | scheduler/email.py:117-129 | The result is `None` (Python raises) exactly when some address has no `@`. Otherwise it is a fresh grouping equal to `Classified` of the list. |
| `Batching.GetTolerance` | scheduler/job.py:42-47 | Without `default`, the lookup fails on `default`. With it, the lookup fails exactly when the lower-cased domain is a key but the domain as given is not, and the failure names the domain. |
| `Batching.ToleranceOfLowerKey` | scheduler/job.py:42-47 | For a lower-case domain, the result is the domain's own value when it is a key, else the default. |
| `Batching.UpperCaseKeyIgnored` | scheduler/job.py:44-46 | A domain whose lower-cased form is not a key gets the default, even when the domain as given is a key (an upper-case key such as `Gmail.com`). |
| `Batching.Tolerances` | scheduler/job.py:66-70 | Looking up every domain succeeds exactly when each lookup does, and then gives one tolerance per domain. |
| `Batching.TolerancesFirstError` | scheduler/job.py:66-70 | The lookups fail with the error of the first domain in dictionary order whose lookup fails. |
| `Batching.Popped` | scheduler/job.py:71-74 | Popped addresses hold no empty string and are no more than the list. |
| `Batching.PoppedMultiset` | scheduler/job.py:72-73 | Popping everything keeps every address except the empty strings, which are dropped. |
| `Batching.Drain` | scheduler/job.py:71-74 | A domain's turn leaves a prefix of its list. With a tolerance of 0 or less it takes nothing. |
| `Batching.DrainPopped` | scheduler/job.py:71-74 | A turn takes, in pop order, the non-empty addresses of the suffix it consumed. |
| `Batching.DrainCount` | scheduler/job.py:71-74 | A turn takes at most the tolerance. If it stops before the list is empty, it took exactly the tolerance. |
| `Batching.DrainExact` | scheduler/job.py:71-74 | On a list without empty strings, a turn takes the smaller of the tolerance and the list's length. |
| `Batching.DrainConserves` | scheduler/job.py:71-74 | What a turn leaves plus what it takes is the list, not counting empty strings. |
| `Batching.RoundRest` | scheduler/job.py:66-76 | After a round, every list is what its turn left of it. |
| `Batching.RoundProgress` | scheduler/job.py:64-78 | When every non-empty list has a tolerance of at least 1, a round strictly shrinks the total length. This is the termination measure of the outer loop. |
| `Batching.StuckList` | scheduler/job.py:64-71 | A list whose tolerance is 0 or less is never shortened by a round, so a non-empty one keeps the total above zero for ever. |
| `Batching.EmptyItemDropped` | scheduler/job.py:72-74 | An example: with tolerance 1, the list `["a@x.org", ""]` gives the single batch `["a@x.org"]`. The empty string, last in the list, is popped first without using up the tolerance, so the address before it is still taken in the same round. The general fact is `BatchesConserve`. |
| `Batching.Batches` | scheduler/job.py:64-78 | No batch is empty. |
| `Batching.BatchesConserve` | scheduler/job.py:62-78 | The batches together hold exactly the non-empty input addresses, each as often as in the input. |
| `Batching.RoundTakenCount` | scheduler/job.py:66-74 | In one round's batch, the number of addresses of a domain is exactly what that domain's turn took. |
| `Batching.RoundCapped` | scheduler/job.py:69-74 | A round's batch holds at most the tolerance of addresses of any domain. |
| `Batching.BatchesCapped` | scheduler/job.py:69-74 | Every batch holds at most `tolerance(d)` addresses of each domain `d`. |
| `Batching.RoundsCeil` | scheduler/job.py:71 | `Rounds(n, t)` is the ceiling of n/t. |
| `Batching.MostRoundsStep` | scheduler/job.py:64-78 | Without empty strings, a round brings every list one round nearer to empty. |
| `Batching.BatchCount` | scheduler/job.py:64-78 | Without empty strings, the number of batches is the largest ceil(n/t) over the domains. |
| `Batching.CollectedIff` | scheduler/job.py:75-76 | A domain is in `empty_keys` after a round's pass over it exactly when it was before or its list is now empty. |
| `Batching.KeysAfterRound` | scheduler/job.py:75-76 | After a round, `empty_keys` names exactly the emptied lists. |
| `Batching.AllKeysEmpty` | scheduler/job.py:64 | The outer loop's test `len(empty_keys) < len(classified_emails)` fails exactly when every list is empty. |
| `Batching.Turn` | scheduler/job.py:69-74 | The inner `while` leaves and takes what `Drain` does. |
| `Batching.Visit` | scheduler/job.py:66-76 | A failed lookup returns the first lookup error. Otherwise one pass of the `for` loop keeps the round's state in step with the specification. |
| `Batching.Round` | scheduler/job.py:65-76 | One round either fails with the first lookup error, or leaves `RoundRest`, builds the batch `RoundTaken` and the new `empty_keys`. |
| `Batching.FirstRound` | scheduler/job.py:64-78 | The first round fails exactly when some tolerance lookup fails, and then with the first error. Otherwise `empty_keys` names exactly the emptied lists, and the batches so far followed by `Batches` of the remaining lists are all the batches of the input. |
| `Batching.NextRound` | scheduler/job.py:64-78 | A later round keeps that invariant: `empty_keys` names exactly the emptied lists, and the batches so far followed by `Batches` of the remaining lists are all the batches. It also strictly shrinks the total length. |
| `Batching.GetBatches` | scheduler/job.py:49-79 | The result is the first lookup error when some domain's tolerance is missing. Otherwise it is exactly `Batches` of the input lists, and every list is left empty. |
| `Batching.IntendedToleranceSound` | scheduler/job.py:42-47 | The corrected lookup fails only without `default` and ignores the case of the domain. On lower-case domains it agrees with the lookup as written. |
| `Batching.MixedCaseDomainFails` | scheduler/job.py:45-46 | The lookup as written fails on `Gmail.com` against the default table. |
| `Jobs.SplitList` | scheduler/job.py:112 | `requires k != 0`. The slices `lst[i:i + k]` for `i` in `range(0, len(lst), k)`, the last cut short. No chunk is empty, and there are none exactly when `k` is negative or the list is empty. |
| `Jobs.SplitListConcat` | scheduler/job.py:104-112 | The chunks concatenate back to the list. |
| `Jobs.SplitListSizes` | scheduler/job.py:104-112 | There are ceil(len/k) chunks. All but the last have exactly k addresses, and the last has 1 to k. |
| `Jobs.SplitListShort` | scheduler/job.py:104-112 | No chunk is longer than k. |
| `Jobs.SplitListExample` | scheduler/job.py:106-107 | The documented example: seven items with k = 3 give chunks of 3, 3 and 1. |
| `Jobs.ParseIdString` | scheduler/job.py:94-99 | A job id is read back from its text `"i"` or `"i_j"`. |
| `Jobs.IdStringInjective` | scheduler/job.py:94-99 | Distinct ids have distinct texts, so no dictionary entry overwrites another. |
| `Jobs.MaxLen` | scheduler/job.py:89 | The largest batch length bounds every batch and is reached by one. |
| `Jobs.ShuffleFirst` | scheduler/job.py:97-98 | The first `m` batches are each shuffled by their own draw; the rest are unchanged. |
| `Jobs.ChunkJobs` | scheduler/job.py:97-100 | Chunk `j` of batch `i` becomes job `"i_j"` holding the chunk as sliced. |
| `Jobs.Step` | scheduler/job.py:90-100 | A pass that does not fail keeps the number of batches. |
| `Jobs.JobsOfBatch` | scheduler/job.py:91-100 | One loop pass of `_get_jobs` computes exactly `Step`. |
| `Jobs.GetJobs` | scheduler/job.py:81-101 | `_get_jobs` computes exactly `JobsOf`. |
| `Jobs.StepReorders` | scheduler/job.py:93-98 | A pass only reorders the batches it shuffles. |
| `Jobs.JobsSized` | scheduler/job.py:87-100 | Each job is drawn from the batch its id names. With `batch_size > 0` it holds at most `batch_size` addresses. All ids are distinct. |
| `Jobs.JobKeysDistinct` | scheduler/job.py:94-99 | The id texts of the jobs are pairwise distinct. |
| `Jobs.JobsConserve` | scheduler/job.py:87-100 | With `batch_size >= 0`, the jobs together hold exactly the addresses of the batches. |
| `Jobs.JobsUnlimited` | scheduler/job.py:88-96 | With `batch_size == 0`: no batches is an error (`max([])`), and otherwise batch `i` becomes the single job `"i"`, a shuffle of the batch. |
| `Jobs.JobsNegative` | scheduler/job.py:87-100 | A negative `batch_size` makes every `range` empty, so there are no jobs. |
| `Jobs.AssignFails` | scheduler/job.py:90-100 | From batch `i` on, the loop raises `IndexError`, modelled as `IndexOutOfRange(len(batches))`, exactly when some batch from `i` on splits into more chunks than there are batches. The shuffles never change a batch's length, so the chunk counts are those of the original batches. |
| `Jobs.JobsFail` | scheduler/job.py:87-100 | `_get_jobs` as written fails exactly in two cases. Either there are no batches with `batch_size == 0` (`max([])`), or `batch_size` is positive and some batch splits into more chunks than there are batches (`IndexError`). Every other input yields jobs. |
| `Jobs.ClassifiedKeyed` | scheduler/email.py:122-129 | Every list of `classify` holds only addresses whose key is that list's domain. |
| `Jobs.JobsCapped` | scheduler/test.py:83-99 | After `classify`, `_get_batches` and `_get_jobs`, every job holds at most `tolerance(d)` addresses of each domain `d`. |
| `Jobs.CountJobs` | scheduler/job.py:134-147 | `ajn` is the number of addresses in jobs, `abn` the number of jobs, `rcd` and `rjd` the removed counts, and `rjn` their sum. |
| `Jobs.CountsAddUp` | scheduler/job.py:139-145 | Assigned plus both kinds of removed addresses (plus dropped empty strings) is the number of addresses loaded. |
| `Jobs.ScenarioBatches` | scheduler/job.py:64-78 | On the test data, the batches are `[user2, user0, user5]` then `[user3]`. |
| `Jobs.ScenarioFirstChunks` | scheduler/job.py:91-100 | The test's first batch `[user2, user0, user5]` splits with k = 2 into `[user2, user0]` and `[user5]`, which become jobs `0_0` and `0_1`. |
| `Jobs.ScenarioFirstPass` | scheduler/job.py:90-100 | The first batch of the test becomes jobs `0_0 = [user2, user0]` and `0_1 = [user5]`. |
| `Jobs.ScenarioJobs` | scheduler/job.py:90-100 | The test batches with `batch_size = 2` give exactly jobs `0_0`, `0_1` and `1`. |
| `Jobs.TwoTolerances` | scheduler/job.py:42-47 | Two lower-case domains, the first a key and the second not, look up the first's own value and the default. |
| `Jobs.ScenarioTolerances` | scheduler/test.py:65 | The test's table `{default: 1, example1.com: 2}` gives `example1.com` and `example2.com` the tolerances 2 and 1. |
| `Jobs.Scenario` | scheduler/test.py:103-107 | The test's table gives the tolerances `[2, 1]`, and with them the test's classified addresses give exactly the expected jobs `0_0`, `0_1` and `1`. |
| `Jobs.ChunkShuffleFails` | scheduler/job.py:97-98 | As written, one batch of three with `batch_size = 2` fails: the second chunk shuffles `batches[1]`, which does not exist. |
| `Jobs.ShuffledChunks` | scheduler/job.py:97-100 | Corrected: chunk `j` becomes job `"i_j"` holding that chunk, shuffled. |
| `Jobs.IntendedJobsSound` | scheduler/job.py:81-101 | The corrected `_get_jobs` fails only on `max([])`. Every job is a permutation of the chunk its id names, is at most `batch_size` long, and the jobs hold exactly the batches' addresses. |
| `Jobs.ChunkShuffleIntended` | scheduler/job.py:97-100 | Corrected: the failing input of `ChunkShuffleFails` gives two shuffled chunk jobs. |
| `Jobs.IntendedCapped` | scheduler/test.py:83-99 | Corrected jobs also respect every domain's tolerance. |
| `Jobs.IntendedCountsAddUp` | scheduler/job.py:139-145 | The counts also add up with the corrected jobs. |
| `Message.SplitsAsAddressIff` | sender/message.py:77 | Splitting at the first `@` and the last `.` finds a match of the address pattern exactly when one exists. |
| `Message.IsValidEmail` | sender/message.py:75-78 | The check holds exactly when the text matches the pattern: either whole, or all but a final newline (Python's `$`). |
| `Message.ShapedValid` | sender/message.py:77 | Any text shaped local `@` domain `.` letters is valid. |
| `Message.TestSenderValid` | sender/test.py:78 | The test's sender address is valid. |
| `Message.TestReceiverValid` | sender/test.py:79 | The test's receiver address is valid. |
| `Message.OddAddressesValid` | sender/message.py:77-78 | The pattern accepts a trailing newline and a domain of dots only. |
| `Message.InvalidAddresses` | sender/message.py:77 | Rejected: a one-letter top-level domain, an empty local part, an empty domain part, and a second `@`. |
| `Message.Check` | sender/message.py:80-88 | Each of the five outcomes holds exactly under its condition: no error; an invalid sender; an invalid receiver after a valid sender; an empty subject after both; empty content last. |
| `Message.MatchAt` | sender/message.py:58 | A section starts at `p` exactly when there is `[` at `p` and a `]` after it. The title ends at the first `]`, and only whitespace lies between it and the content. |
| `Message.MatchAtContent` | sender/message.py:58 | The content has no whitespace at either end and is followed only by whitespace up to a `[word]` marker or the end of the text. It contains no marker. |
| `Message.LazyContentShape` | sender/message.py:58 | The lazy content stops before the trailing whitespace that precedes the first boundary. |
| `Message.LazyContentFirst` | sender/message.py:58 | The lazy content is the shortest: no earlier end reaches a boundary. |
| `Message.SectionMatch` | sender/message.py:58 | Given `[title]`, whitespace, content without `[`, whitespace and a boundary, the match is exactly that span. |
| `Message.FindAll` | sender/message.py:58-60 | `re.findall` from position `p`: the groups of the successive non-overlapping matches. After an attempt that fails, the search moves on one character. The definition has no contract of its own; `FindAllLength`, `FindAllTitles` and `RenderParses` state what it returns. |
| `Message.FindAllLength` | sender/message.py:58-60 | Each match consumes at least its two brackets, so the search from `p` returns at most half as many sections as there are characters left. |
| `Message.FindAllTitles` | sender/message.py:58-60 | No title the search returns holds `]`, because the lazy title `(.*?)` stops at the first `]`. |
| `Message.RenderParses` | sender/message.py:58-60 | `findall` on a text of well-formed blocks returns each block's title and content, in order. |
| `Message.Collect` | sender/message.py:61-65 | The loop `result[title.strip()] = content.strip()` over the first `n` entries, a later entry overwriting an earlier one. The result is empty exactly when no entry was read. |
| `Message.CollectSize` | sender/message.py:61-65 | The loop adds at most one key per entry. |
| `Message.Entries` | sender/message.py:63-65 | Each entry is the stripped title and the stripped content of its section. |
| `Message.CollectLastWins` | sender/message.py:63-65 | A title is a key exactly when some entry has it, and its value is the content of the last such entry. |
| `Message.Attachment` | sender/message.py:67-70 | Missing or empty attachment text gives `None`. Otherwise the value is a non-empty list of newline-free lines (a line may be empty) that join back to the text. |
| `Message.Dictionary` | sender/message.py:61-70 | The keys are the titles plus `ATTACHMENT`, and every other title keeps its text. |
| `Message.ParseTemplate` | sender/message.py:58-72 | The result holds `ATTACHMENT` and every stripped title found. The attachment is split as above, and other titles map to their last stripped content. |
| `Message.DictionaryKeySet` | sender/message.py:61-70 | The dictionary of blocks has exactly their titles and `ATTACHMENT` as keys. |
| `Message.DictionaryValue` | sender/message.py:63-70 | The last block with a title gives that title's value: split lines for `ATTACHMENT`, text otherwise. |
| `Message.TemplateDictionary` | sender/message.py:58-72 | A text whose sections are those of the blocks parses to the blocks' dictionary. |
| `Message.RenderedKeys` | sender/message.py:61-72 | Parsing rendered blocks gives exactly their titles plus `ATTACHMENT` as keys. |
| `Message.RenderedValue` | sender/message.py:63-70 | Parsing rendered blocks gives each title the content of its last block. |
| `Message.RenderedNoAttachment` | sender/message.py:67-70 | Without an `ATTACHMENT` block, `ATTACHMENT` maps to `None`. |
| `Message.RenderedDictionary` | sender/message.py:58-72 | Parsing rendered blocks gives the blocks' dictionary. |
| `Message.SubjectContentAttachment` | sender/message.py:40-54 | Subject, content and a one-line attachment laid out as in the docstring parse to those three values. |
| `Message.SubjectContent` | sender/message.py:67-70 | Subject and content with no attachment section parse with `ATTACHMENT` set to `None`. |
| `Message.DocExample` | sender/message.py:38-56 | The docstring's template parses to `Hello!`, `World!` and `['data/attachment_example.txt']`. |
| `Message.TestTemplate` | sender/test.py:58-101 | The test template parses to the asserted subject and the asserted multi-line content, with no attachment. |

## Left out

- CSV reading and writing (`_read_column`, `_load_email_list`, `_save`, `_save_batch`) and `clear_job_files` are left out. They are file I/O. The loaded address lists are parameters.
- `_print_count` and all other printing are left out. They are console output.
- The class-level `_config` dictionaries and the kwargs merging are left out. They are configuration shared across instances. `ignore_cn`, `domains_cn`, the done list, the tolerance table and `batch_size` are parameters.
- `assign_jobs` is not a method of the model. It is modelled as the composition `Classified`, then `Batches`, then `JobsOf` in `JobsCapped`, `CountsAddUp` and `Scenario`.
- `random.shuffle` is a parameter `shuffle(n, s)`, the order the n-th call leaves `s` in. Only its being a permutation is assumed.
- `Text.Lower`: only ASCII letters are lower-cased. Python's `str.lower` also maps non-ASCII letters.
- `Message.MatchAt`: `\w` is modelled as ASCII letters, digits and `_`. Python's `str` patterns also accept Unicode word characters.
- `Batching.GetBatches`: requires every non-empty list to have a tolerance of at least 1. Below that the source's outer `while` never ends (`StuckList` shows such a list never shrinks).
- `Batching.GetBatches`: when a lookup fails, the contract does not state how far the lists before the failing domain were already drained. Python raises `KeyError` at that point.
- `Jobs.SplitList`: requires `k != 0`. `range` with step 0 raises, and `_get_jobs` never passes 0.
- Python dictionaries are insertion-ordered sequences here: `Grouping` for `classify`, and a sequence of `Job` for `_get_jobs`.
- `Classifier.EmailClassifier.IsCnDomain`: the set is visited in an order the model does not fix. The answer is the same for every order.
- `build`, `_build_attachment`, `_load_template`, MIME construction and SMTP sending are left out. They are library and network wrappers. `_check` works on a `Draft` record of the fields it reads.
- `sender/log.py`, `sender/user.py`, `runner.py` and `main.py` are left out. They are I/O and orchestration.
- The template file `data/template_example.txt` is not part of this model. `TestTemplate` rebuilds it from the docstring at sender/test.py:58-69, with the subject the test asserts.
- `Message.RenderedDictionary`: the render/parse round trip is stated only for content without any `[`. The parser needs less: content with other bracketed text, such as `see [a b]`, also parses back, but this round trip does not cover it. `MatchAtContent` states the general rule for a single match.
- `Message.DocExample` and `Message.TestTemplate` state each template as the `Render` of its blocks rather than as a literal string.

## Findings

| source | as written | input that shows it | evidently intended | confidence | as-written member | corrected member |
|---|---|---|---|---|---|---|
| scheduler/job.py:98 | `random.shuffle(batches[j])` for each chunk index `j` | one batch `[a, b, c]` with `batch_size = 2`: the second chunk shuffles `batches[1]`, which raises `IndexError` | shuffle the chunk `items[j]`, as the one-chunk branch shuffles `items[0]` | not executed | `Jobs.ChunkShuffleFails` | `Jobs.IntendedJobsSound` |
| scheduler/job.py:45-46 | tests `domain.lower()` as a key but reads `tolerance[domain]` | table `{default: 1, gmail.com: 3}` with domain `Gmail.com` raises `KeyError`; latent, because `classify` lower-cases its keys | read `tolerance[domain.lower()]` | not executed | `Batching.MixedCaseDomainFails` | `Batching.IntendedToleranceSound` |

The model keeps the code as written for `JobsOf`, since that is the code the scheduler test exercises. For the corrected `_get_jobs`, the tolerance bound (`Jobs.IntendedCapped`) and the counts (`Jobs.IntendedCountsAddUp`) are proved as well.
