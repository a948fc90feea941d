# agent-job-hunt helpers, modelled in Dafny

This project models the parts of the `agent_job_hunt` package that have logic of their own:

- the generic helpers of `utils/base.py`:
  - `group_by`, which partitions a sequence into per-key lists;
  - `remove_special_chars` and `remove_newlines`, two character filters;
  - `str_to_bool`, a case-insensitive boolean parser;
  - `get_first_or_raise` and `none_to_str`, two selectors;
  - `is_truthy` and `is_falsy`, Python truthiness.
- how the Anthropic client builds its `messages` list and extracts the reply text
  (`llm/services/anthropic.py`);
- how the OpenAI client extracts the first choice's content and turns a failed call into
  `None` (`llm/services/openai.py`).

Modules, one per file:

- `Wrappers` (`wrappers.dfy`): `Option`, `Result` and the Python exceptions raised, with their messages.
- `Sequences` (`sequences.dfy`): `Filter` (the order-keeping comprehension `[x for x in s if p(x)]`), subsequences, and their lemmas.
- `Utils` (`utils.dfy`): `utils/base.py`.
- `Anthropic` (`anthropic.dfy`) and `OpenAI` (`openai.dfy`): the two provider clients.
  Each SDK call becomes a function parameter `create` that returns a reply or an exception.

`group_by` is a method with a loop that fills a `map<K, seq<T>>`. It also returns the
dictionary's key insertion order, which Python's dict keeps implicitly. It is proved against
three specification functions:

- `Group`: the input filtered by key;
- `KeysInOrder`: the distinct keys in order of first occurrence;
- `Flatten`: the groups concatenated in key order.

The loop invariant is `Grouped`. The Anthropic extractor is also a method with a loop. It
accumulates text and is proved against the function `TextOf`. The project has three methods:
`Utils.GroupBy`, `Anthropic.ExtractMessage` and `Anthropic.FetchAnthropicAiResponse`, which
calls the other Anthropic method. Every other operation is a function.

Where the code and the written documentation differ, the model follows the code:

- `fetch_open_ai_response` is documented to return a string and `""` when no response is
  available. It returns `None` when the SDK call raises. It also returns `None` when the first
  choice has no content.
- The OpenAI client does not concatenate text segments. It returns the first choice's content
  unchanged. Only the Anthropic client concatenates its text blocks.
- The Anthropic client does not turn malformed payloads into an empty result. Every exception
  propagates to the caller.
- The Anthropic client's `images` parameter is documented as defaulting to `None`, but the
  code's default is the empty list `[]`. `FetchAnthropicAiResponse` takes the code's defaults:
  `images` is `Some([])` and `maxTokens` is `Some(DefaultMaxTokens)`, that is 1024. Passing
  `None` explicitly makes the list comprehension raise `TypeError`. `BuildMessages` models that
  error.

## Model

| member | source | states |
|---|---|---|
| `Utils.GetFirstOrRaise` | src/agent_job_hunt/utils/base.py:32-35 | succeeds exactly on a non-empty list and then returns its first element; an empty list raises `ValueError("The input list is empty.")` |
| `Utils.GetFirstOrRaiseConcat` | src/agent_job_hunt/utils/base.py:32-35 | only the head of the list matters: appending to a non-empty list keeps the selection, and a list that starts with `x` yields `x` |
| `Utils.GroupBy` | src/agent_job_hunt/utils/base.py:60-64 | the keys are exactly the distinct keys of the input, in order of first occurrence, without repeats; group `k` is the input filtered by `key(x) == k` in input order and is never empty; the groups together hold exactly the multiset of input items |
| `Utils.AppendToGroup` | src/agent_job_hunt/utils/base.py:62-63 | appending an item whose key already has a group keeps the grouping invariant for the longer prefix, key order unchanged |
| `Utils.StartGroup` | src/agent_job_hunt/utils/base.py:62-63 | an item with a new key opens a one-item group and appends its key to the key order, keeping the grouping invariant |
| `Utils.GroupMembership` | src/agent_job_hunt/utils/base.py:61-63 | an item is in group `k` exactly when it is an input item whose key is `k` |
| `Utils.GroupNonEmpty` | src/agent_job_hunt/utils/base.py:60-63 | a group is non-empty exactly when some input item has that key |
| `Utils.KeysInOrderMembers` | src/agent_job_hunt/utils/base.py:55-63 | a key appears among the result's keys exactly when some input item has it |
| `Utils.KeysInOrderDistinct` | src/agent_job_hunt/utils/base.py:60-63 | no key appears twice |
| `Utils.KeysInOrderByFirstOccurrence` | src/agent_job_hunt/utils/base.py:55-63 | keys are ordered by first occurrence: before any occurrence of a later key, each earlier key has already occurred |
| `Utils.RemoveSpecialChars` | src/agent_job_hunt/utils/base.py:78-81 | the result holds only ASCII letters, ASCII digits and Python whitespace; it keeps every occurrence of those characters, drops every other character, and keeps their relative order |
| `Utils.RemoveSpecialCharsIdempotent` | src/agent_job_hunt/utils/base.py:78-81 | cleaning twice equals cleaning once |
| `Utils.RemoveSpecialCharsConcat` | src/agent_job_hunt/utils/base.py:78-81 | cleaning a concatenation is the concatenation of the cleaned parts |
| `Utils.RemoveNewlines` | src/agent_job_hunt/utils/base.py:152 | the result holds no `'\n'`; its length is the input length minus the number of `'\n'`; every other character keeps its count and its order |
| `Utils.RemoveNewlinesNoNewline` | src/agent_job_hunt/utils/base.py:152 | a string without `'\n'` is returned unchanged |
| `Utils.StrToBool` | src/agent_job_hunt/utils/base.py:179-185 | returns `True` iff the lower-cased input is `"true"`, `False` iff it is `"false"`; anything else raises `ValueError` naming the lower-cased input |
| `Utils.StrToBoolCaseInsensitive` | src/agent_job_hunt/utils/base.py:179-185 | lower-casing the input first never changes the outcome |
| `Utils.StrToBoolRoundTrip` | src/agent_job_hunt/utils/base.py:169-185 | parsing `str(b)`, or its upper-case form, gives back `b` |
| `Utils.NoneToStr` | src/agent_job_hunt/utils/base.py:272 | `None` becomes `""`, any string is returned as it is |
| `Utils.NoneToStrEmpty` | src/agent_job_hunt/utils/base.py:272 | the result is empty exactly for `None` and for `""` |
| `Utils.IsTruthy` | src/agent_job_hunt/utils/base.py:222 | `None` is false; a boolean is itself; a string or list is true iff it is non-empty; an integer is true iff non-zero |
| `Utils.IsFalsy` | src/agent_job_hunt/utils/base.py:259 | `None` is falsy; a boolean is falsy iff `False`; a string or list is falsy iff empty; an integer is falsy iff zero |
| `Utils.TruthyIsNotFalsy` | src/agent_job_hunt/utils/base.py:222-259 | `is_truthy(x) == not is_falsy(x)` for every value |
| `Utils.TruthyOptionalString` | src/agent_job_hunt/utils/base.py:222-272 | an optional string is truthy exactly when `none_to_str` of it is non-empty |
| `Anthropic.ExtractMessage` | src/agent_job_hunt/llm/services/anthropic.py:65-69 | the accumulated text is `TextOf` the reply's content: the texts of its `"text"` blocks concatenated in order |
| `Anthropic.TextOfConcat` | src/agent_job_hunt/llm/services/anthropic.py:65-69 | extraction distributes over concatenation of content lists |
| `Anthropic.TextOfIgnoresNonText` | src/agent_job_hunt/llm/services/anthropic.py:66-68 | blocks not of type `"text"` contribute nothing: the text equals that of the text blocks alone |
| `Anthropic.TextOfNoText` | src/agent_job_hunt/llm/services/anthropic.py:65-69 | a reply with no text blocks, in particular an empty one, yields `""` |
| `Anthropic.TextOfLength` | src/agent_job_hunt/llm/services/anthropic.py:65-69 | the text's length is the sum of the lengths of the text blocks' texts |
| `Anthropic.BuildMessages` | src/agent_job_hunt/llm/services/anthropic.py:34-50 | `None` images raise `TypeError`; otherwise one entry more than there are images: image `i` as a base64 PNG entry at position `i`, then the user entry with the prompt last |
| `Anthropic.BuildMessagesRoundTrip` | src/agent_job_hunt/llm/services/anthropic.py:34-50 | the built list carries exactly the given images in order and exactly one prompt, the given one |
| `Anthropic.FetchAnthropicAiResponse` | src/agent_job_hunt/llm/services/anthropic.py:13-52 | `images` defaults to the empty list and `maxTokens` to 1024; a `TypeError` for `None` images; otherwise the SDK call's exception propagates, or the result is `TextOf` the reply's content |
| `OpenAI.ExtractMessage` | src/agent_job_hunt/llm/services/openai.py:56-64 | no choices, or a response whose reading raises, gives `""`; otherwise the first choice's content, unchanged and possibly `None` |
| `OpenAI.ExtractMessageFirstChoiceOnly` | src/agent_job_hunt/llm/services/openai.py:57-59 | choices after the first never change the result |
| `OpenAI.ExtractMessageAbsent` | src/agent_job_hunt/llm/services/openai.py:56-64 | the result is `None` exactly when a first choice exists and has no content; extraction never fails |
| `OpenAI.FetchOpenAiResponse` | src/agent_job_hunt/llm/services/openai.py:26-40 | `None` when the SDK call raises, otherwise the extractor's result on the reply |
| `OpenAI.FetchOpenAiResponseAbsent` | src/agent_job_hunt/llm/services/openai.py:26-40 | the fetcher yields `None` exactly when the call raised or the first choice has no content |

## Left out

- `similarity_ratio` and `are_strs_similar` are left out. They wrap `difflib.SequenceMatcher`, whose matching heuristics are not part of this model, and they compare floats.
- `format_execution_time` is left out: its output depends on floating-point floor division, modulo and `%05.2f` rounding.
- `debug_print`, `print_if_not_empty`, `print_with_newline` and `print_var_name_value` are left out. They do console output, read an environment variable and inspect stack frames.
- The error message that `fetch_open_ai_response` and the OpenAI extractor print is console output and is not modelled.
- The network calls are parameters. `messages.create` and `chat.completions.create` become the parameter `create`.
- Reading API keys from the environment and constructing the clients are not modelled.
- `llm/services/perplexity.py` is left out. Its extractor is one nested lookup on an untyped JSON dictionary.
- `CLAUDE_THREE_OPUS_MODEL` and `GPT_FOUR_TURBO_MODEL` live in `models.py`, which is not part of this model. The Anthropic request omits the model name, and the OpenAI model name is a parameter.
- `Utils.StrToBool`: Python's `str.lower()` is modelled only for ASCII letters. Whether the call returns `True`, returns `False` or raises is exact, because no non-ASCII character lower-cases into a letter of `"true"` or `"false"`. The lower-cased input quoted in the error message can differ for non-ASCII upper-case letters.
- `Utils.IsTruthy` and `Utils.IsFalsy` cover `None`, booleans, integers, strings and lists. Floats, complex numbers, dictionaries, sets and objects with `__bool__` or `__len__` are not modelled.
- `Utils.GroupBy` takes its items as a finite sequence and its key as a pure, total function. A key function that raises or has side effects is not modelled.
- `Utils.GroupBy` returns a plain map. The returned `defaultdict` would create an empty list when a missing key is read later; that is not modelled.
- The SDK response objects are reduced to the fields the code reads. An OpenAI response on which reading `choices[0].message.content` raises is represented by the single value `Unreadable`.
