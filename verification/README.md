# CatGPT chat core, modelled in Dafny

CatGPT is a Streamlit chat page (`meow_app.py`). A user logs in against
credentials held in the secret store, picks one of five hosted models, and chats.
Each reply is streamed from the provider, joined, and in "meow mode" every word
is replaced by `meow`. Typing a hidden safeword switches the session to normal
replies for good. This project models the logic under the UI:

- `MeowSubstitution` (meow.dfy): `re.sub(r'\b\w+\b', 'meow', text)` as the
  regular-expression engine runs it. The scan tries `\b\w+\b` at each position,
  emits `meow` on a match and resumes after it, and otherwise copies one
  character. It is proved against an independent description: the text
  decomposed into maximal word runs and single non-word characters (`Segment`).
- `ResponseTransformer` (response.dfy): `generate_chat_responses`, i.e. joining
  the streamed chunk contents (a `seq<Option<string>>`) and applying the
  substitution in meow mode.
- `ModelCatalog` (catalog.dfy): the fixed `models` table and the selector's options.
- `Safeword` (safeword.dfy): the case-insensitive substring gate and its canned reply.
- `Credentials` (credentials.dfy): `check_credentials` over a secrets map.
- `ChatSession` (session.dfy): the `st.session_state` fields as a class
  `Session` with `loggedIn`, `messages`, `normalResponseMode`, `selectedModel`,
  and the steps that update them in place: login, logout, creation of the chat
  keys, model selection, and one chat turn. The provider is a parameter
  `complete: CompletionRequest -> Completion`. A turn returns the request it
  issued, or `None` when it issued none.
- `Wrappers` (wrappers.dfy): `Option`.

`ChatSession.SafewordScenario` is a client of `Session` written against the
contracts alone. It logs in, selects the default model and sends the safeword.
It then checks that the next reply is the provider's text unchanged, and that
logging out keeps normal mode.

Two behaviours of the code worth stating:

- The code has no retry against a fallback model when the provider rejects a
  model. Any exception aborts the turn with only the prompt stored.
- `check_credentials` returns `False` when a secret is missing. It does not halt.

## Model

| member | source | states |
|---|---|---|
| MeowSubstitution.RunEnd | meow_app.py:143 | greedy `\w+` from a position stops at the end of the maximal run of word characters there |
| MeowSubstitution.MatchAt | meow_app.py:143 | `\b\w+\b` matches at a position exactly when a word run starts there, and the match ends where that run ends |
| MeowSubstitution.GreedyEndIsOnlyEnd | meow_app.py:143 | backtracking cannot give another match: any end of the run at which `\b` holds is the greedy end |
| MeowSubstitution.Tokenize | meow_app.py:143 | every text decomposes into maximal word runs and single non-word characters |
| MeowSubstitution.TokenizeUnique | meow_app.py:143 | that decomposition is unique |
| MeowSubstitution.Meow | meow_app.py:143 | `re.sub(r'\b\w+\b', 'meow', s)`, computed by the left-to-right scan `SubstituteFrom`: its result is the text's unique split into maximal word runs with each run replaced by `meow`, and its non-word characters (spaces, punctuation, emoji) are the input's, in the same order |
| MeowSubstitution.MeowReplacesEveryRun | meow_app.py:141-143 | for any decomposition of the text, the substitution replaces each maximal word run by exactly `meow` and keeps every other character in place |
| MeowSubstitution.MeowOutputRuns | meow_app.py:143 | every maximal word run of the output is `meow` |
| MeowSubstitution.MeowIdempotent | meow_app.py:143 | applying the substitution to its own output changes nothing |
| MeowSubstitution.MeowWithoutWords | meow_app.py:143 | a text with no word characters is returned unchanged |
| MeowSubstitution.MeowExample | meow_app.py:143 | "Hi there!" becomes "meow meow!" |
| ResponseTransformer.ChunkText | meow_app.py:137 | a missing content gives "", a present one gives itself (an empty content therefore gives "") |
| ResponseTransformer.JoinChunks | meow_app.py:136-139 | `"".join` over the chunk contents: its length is the sum of the contents' lengths; with `JoinChunksAppend` and `JoinChunksKeepsOrder` it is the in-order concatenation |
| ResponseTransformer.JoinChunksAppend | meow_app.py:136-139 | the joined text of a stream is the joined text of its parts, in arrival order |
| ResponseTransformer.JoinChunksKeepsOrder | meow_app.py:136-139 | a chunk with content t contributes exactly t at its place in the stream |
| ResponseTransformer.JoinChunksSkipsEmpty | meow_app.py:137 | a chunk whose content is None or empty contributes nothing |
| ResponseTransformer.GenerateChatResponse | meow_app.py:133-145 | with meow mode off the result is the in-order join; with it on, every maximal word run of the join becomes `meow`, non-word characters are kept in order, and the result is a fixed point of the substitution |
| ResponseTransformer.GenerateExample | meow_app.py:133-145 | chunks "Hi " and "there!" in meow mode give "meow meow!" |
| ModelCatalog.MaxTokens | meow_app.py:125 | the token limit of a model is its `tokens` entry in the table, one of 4096, 8192, 32768 |
| ModelCatalog.CatalogShape | meow_app.py:44-51 | five distinct models and every provider is "groq"; the selector at meow_app.py:112-118 offers exactly the table's keys, and its default (index 4) is Mixtral |
| Safeword.Contains | meow_app.py:159 | Python's `in` on strings: true exactly when the pattern occurs at some position of the text |
| Safeword.LowerChar | meow_app.py:156 | lower-casing one character: an upper-case letter becomes the lower-case letter at the same place in the alphabet, the result is never an upper-case letter, is a lower-case letter exactly when the input is a letter, and non-upper-case characters are unchanged |
| Safeword.ToLower | meow_app.py:159 | `str.lower`: each character is lower-cased in place (`r[k] == LowerChar(s[k])`), so the length is kept, no upper-case letter is left, letters stay letters, and lower-casing again changes nothing |
| Safeword.SafewordMatches | meow_app.py:159 | `safeword.lower() in prompt.lower()`: true exactly when some slice of the prompt equals the safeword after lower-casing |
| Safeword.EmptySafewordMatchesAll | meow_app.py:156-159 | an empty safeword matches every prompt |
| Safeword.SafewordIgnoresCase | meow_app.py:156-159 | lower-casing the safeword or the prompt does not change the verdict |
| Credentials.CheckCredentials | meow_app.py:21-31 | true iff both secrets exist and username and password equal them exactly; a missing key gives false |
| Credentials.CredentialsUnique | meow_app.py:28 | at most one username/password pair passes the check |
| Credentials.MissingSecretRejects | meow_app.py:29-31 | with either secret missing, every pair is rejected |
| ChatSession.Session.constructor | meow_app.py:207-208 | a new session is logged out and has no chat keys yet |
| ChatSession.Session.Login | meow_app.py:64-70 | `logged_in` becomes true exactly when the credentials check passes and is otherwise left as it was |
| ChatSession.Session.Logout | meow_app.py:91-92 | logout clears `logged_in` and changes nothing else, in particular not the response mode |
| ChatSession.Session.CreateChatState | meow_app.py:102-110 | the chat keys are created with their defaults only when absent; existing history, mode and selection are kept |
| ChatSession.Session.SelectModel | meow_app.py:112-125 | a different model clears the history and becomes the selection; the same model leaves the history alone; the selection is a catalog key; the token limit is the model's `tokens` |
| ChatSession.Session.ProcessPrompt | meow_app.py:147-199 | the prompt is appended first; on a safeword match the mode becomes normal for good, no request is made and the canned reply "Ah, you got me! How can I help you?" (line 161) is appended; otherwise the provider gets the whole history, the model and its token limit, and its stream is transformed with meow mode equal to not normal mode; a completed turn adds exactly two messages, an unknown provider or a failed call only the prompt; the mode never goes back to false |

## Left out

- The Streamlit page: titles, columns, chat bubbles, the history display, `st.rerun` and `st.stop`. These are rendering and control flow, not logic.
- The audio and image shown on the login page. They are file reads.
- The Groq client and the streaming call. The provider is the parameter `complete`. Any exception raised while creating or reading the stream is one `Failed` outcome, with no partial reply.
- The secret store itself. Credentials take a `map<string, string>`, and the safeword is a parameter.
- The startup check that all required secrets exist, which halts the page otherwise. It is what lets the turn read the safeword without a KeyError.
- `get_groq_client`'s missing-API-key path. The startup check rules it out.
- `TESTING_MODE` and its bypasses. The source fixes it to False, and the model is that configuration.
- The unused `VALID_CREDENTIALS` table. No code path reads it.
- MeowSubstitution.IsWordChar: Python's `\w` on `str` is Unicode-aware; the model takes ASCII letters, digits and `_` only.
- Safeword.LowerChar: Python's `str.lower` is Unicode-aware and can change a string's length; the model lower-cases ASCII letters only.
- ChatSession.Session.ProcessPrompt: it requires a non-empty prompt, because `st.chat_input` yields nothing for an empty one and the walrus test skips the turn.
- ChatSession.Session.SelectModel: it requires a key of the table, because the selector only offers those keys.
