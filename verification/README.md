# check-in-bot core, modelled in Dafny

check-in-bot is a Slack app. Its core has two parts.

- **The `message` handler** (`emoji_react` in `app.py`). For every message that
  is not a thread reply, it asks a language model for a line of emoji. It cleans
  the reply with `reply.strip().strip(":")` and splits it with
  `re.split(r':\s*:*', reply)`. Then it calls `reactions.add` once per name. A
  failed reaction is logged and the loop goes on.
- **The per-workspace store** (`workspace_store.py`). A pickle file maps each
  team id to a workspace record: name, admins, incompatible pairs and install
  time. `get_workspace_info` reads it, `ensure_workspace_exists` adds a team
  once, and `update_workspace_admins` replaces one team's admin list.

The model has five modules:

- **`Wrappers`** holds `Option`.
- **`Text`** holds Python's whitespace class and `str.strip` on a character
  set.
  - `Whitespace` is the set of characters for which `str.isspace()` holds. The
    `\s` class of a `str` regular expression uses the same set.
  - `Strip` is characterised by `TrimmedBy` and `Bare`. `StripUnique` shows that
    nothing else meets that characterisation.
- **`ReplyParse`** covers the reply cleaning and the split.
  - `IsRegexSplit` says what `re.split` must return, without describing a scan:
    the pieces rejoin to the input, no name holds a colon, every separator
    matches `:\s*:*`, and every match is as greedy as the pattern makes it.
  - `Tokenize` is the left-to-right scan. `TokenizeSound` and `TokenizeUnique`
    show that it returns exactly that split.
  - `SplitScan` is the loop version of the scan, proved equal to it.
- **`EmojiReact`** is the handler. The model's reply (or the failure to get
  one) and the outcome of each `reactions.add` call are parameters.
- **`WorkspaceStore`** is the store. The pickle file is a value:
  `Missing`, `Unreadable` or `Saved(map)`. Each operation takes that value, and
  an operation that writes returns a new one.

The code and its docstring disagree in one place: `get_workspace_info` with a
team id is documented to return `None` when the team is not found. When the file
is missing or cannot be loaded, however, the code returns `{}` for any
`team_id` (`workspace_store.py:26-27` and `:35-37`). The model follows the code.
`home_tab.py:17` does pass a team id, but it uses the result only as a
truth value (`if workspace and workspace["admins"]`, `home_tab.py:19`), so there
`{}` and `None` behave the same.

## Model

| member | source | states |
|---|---|---|
| `Text.Strip` | app.py:47 | `str.strip` on a character set returns a trimming of the input: only characters of the set are cut, from the two ends. Neither end of the result is in the set. |
| `Text.StripUnique` | app.py:47 | Any trimming by the set that leaves no set character at either end equals `Strip`, so the two properties determine `str.strip` completely. |
| `ReplyParse.Clean` | app.py:47 | `reply.strip().strip(":")` cuts only whitespace and colons, from the two ends. No colon is left at either end. |
| `ReplyParse.CleanUnique` | app.py:47 | A whitespace trim with nothing left to trim, followed by a colon trim with nothing left to trim, gives exactly `Clean(reply)`. |
| `ReplyParse.CleanColonWrapped` | app.py:47 | A reply wrapped in one colon on each side, whose inside neither starts nor ends with a colon, cleans to its inside. |
| `ReplyParse.CleanUntrimmed` | app.py:47 | A reply that neither starts nor ends with whitespace or a colon is left unchanged. |
| `ReplyParse.CleanExample` | app.py:47 | `" :a: "` cleans to `"a"`: spaces are cut first, then colons. |
| `ReplyParse.SeparatorEnd` | app.py:48 | The greedy match of `:\s*:*` at a colon is one separator. The character after it can extend it neither with a colon nor, when the match has no trailing colons, with whitespace. |
| `ReplyParse.ScanFrom` | app.py:48 | The scan from a position yields one name more than separators. `ScanSound` and `ScanUnique` show that its pieces are exactly the split `IsRegexSplit` describes for the rest of the text. |
| `ReplyParse.Tokenize` | app.py:48 | The model of `re.split(r':\s*:*', s)` with its matches kept. `TokenizeSound` and `TokenizeUnique` show that it returns exactly the pieces `IsRegexSplit` describes, and no other decomposition qualifies. |
| `ReplyParse.Split` | app.py:48 | The list `re.split` returns: the names of `Tokenize`. `SplitShape`, `SplitScan` and the split examples state its properties. |
| `ReplyParse.SplitShape` | app.py:48 | `re.split` returns one more name than there are separator matches. No name contains a colon, and a text without a colon comes back as a single name. |
| `ReplyParse.TokenizeSound` | app.py:48 | The scan's names and separators satisfy `IsRegexSplit`: they rejoin to the input, every separator matches `:\s*:*`, and every match is greedy. |
| `ReplyParse.TokenizeUnique` | app.py:48 | Any decomposition that satisfies `IsRegexSplit` is the one the scan produces, so the split is determined. |
| `ReplyParse.SplitScan` | app.py:48 | The executable scan loop returns exactly the names of the split. |
| `ReplyParse.ScanSeparator` | app.py:48 | The loop that consumes whitespace and then colons after a colon stops where the greedy match ends. |
| `ReplyParse.FindColon` | app.py:48 | The loop that looks for the next colon stops at the first colon at or after its start, or at the end of the text. |
| `ReplyParse.ParseReply` | app.py:47-48 | The handler's names are never an empty list, and no name contains a colon. |
| `ReplyParse.ParseThreeExample` | app.py:47-48 | `":smile: :cook: :tada:"` gives `["smile", "cook", "tada"]`. |
| `ReplyParse.CleanThreeExample` | app.py:47 | `":smile: :cook: :tada:"` loses only its outer colons. |
| `ReplyParse.SplitThreeExample` | app.py:48 | `"smile: :cook: :tada"` splits at its two `": :"` matches. |
| `ReplyParse.ParseDoubleColonExample` | app.py:47-48 | In `"a::b"` the doubled colon is one separator, so the names are `["a", "b"]` and there is no empty name. |
| `ReplyParse.ParseSpacedExample` | app.py:47-48 | Whitespace inside the outer colons is kept: `": a :"` gives the single name `" a "`. |
| `ReplyParse.ParseEmptyExample` | app.py:47-48 | An empty reply gives one empty name, not an empty list. |
| `EmojiReact.IsTopLevel` | app.py:30 | The thread filter: an event is reacted to only when it has no `thread_ts` key. `HandleMessage` and `HandleMessageAsWritten` state that an event failing it gets no reaction. |
| `EmojiReact.HandleMessage` | app.py:29-60 | The corrected handler (see Findings): a thread reply, or a failure to get the reply, produces no reaction, where the code as written raises on the failure. Otherwise the handler tries one reaction per parsed name, in order, on the event's channel and timestamp, whatever each earlier call returned. |
| `EmojiReact.HandleMessageAsWritten` | app.py:29-51 | As written, the handler raises exactly when the event is top-level and getting the reply failed. In every other case it returns what `HandleMessage` does: no attempt for a thread reply, otherwise one attempt per parsed name on the event's channel and timestamp, each with its own call's outcome. |
| `EmojiReact.ReactAll` | app.py:51-60 | Tries every name once, in list order, on the same message. Each attempt's outcome is the result of its own call. |
| `WorkspaceStore.Load` | workspace_store.py:25-37 | A missing or unloadable file reads as an empty map, and a loadable one as its map. `GetAllIsLoad` ties it to `get_workspace_info()`, and `EnsureOnEmptyStore` states what the empty read leads to. |
| `WorkspaceStore.GetAllIsLoad` | workspace_store.py:14-41 | `get_workspace_info()` with no id, the read that `ensure_workspace_exists` and `update_workspace_admins` start from, returns every team `Load` reads, including an empty map for a missing or unreadable file. |
| `WorkspaceStore.GetWorkspaceInfo` | workspace_store.py:14-37 | With a loadable file and a non-empty id it looks the team up (`None` when the team is absent). Without an id it returns every team. With a missing or unreadable file it returns an empty map either way. |
| `WorkspaceStore.NewWorkspace` | workspace_store.py:45-51 | A new team's record has the given id, name and install time, and empty admin and incompatible-pair lists. |
| `WorkspaceStore.EnsureWorkspaceExists` | workspace_store.py:39-55 | Afterwards the team is stored with the returned record. A known team keeps its record and the file is not written. An unknown team gets a new record. The stored team ids are the old ones plus this one, and no other team changes. |
| `WorkspaceStore.UpdateWorkspaceAdmins` | workspace_store.py:57-69 | A stored team gets exactly the new admin list and keeps every other field; other teams and the set of team ids are unchanged. For an unknown team nothing is written. |
| `WorkspaceStore.EnsureIdempotent` | workspace_store.py:39-55 | A second `ensure_workspace_exists` for the same team, with any name and clock reading, returns the same record and writes nothing. |
| `WorkspaceStore.EnsureOnEmptyStore` | workspace_store.py:25-52 | On a missing or unreadable file, `ensure_workspace_exists` writes a store that holds only the new team. |
| `WorkspaceStore.EnsureThenGet` | workspace_store.py:14-55 | For a non-empty team id, looking the team up after `ensure_workspace_exists` returns the record it returned. |
| `WorkspaceStore.UpdateThenGet` | workspace_store.py:14-69 | With a loadable file and a non-empty team id, looking the team up after `update_workspace_admins` shows the new admins, and a team that was not stored reads as `None`. |
| `WorkspaceStore.UpdateLastWins` | workspace_store.py:57-69 | Two admin updates equal a single update with the second list. |
| `WorkspaceStore.EnsureAfterUpdate` | workspace_store.py:39-69 | For a stored team, after an admin update, `ensure_workspace_exists` returns the record with the new admins and its original name and install time. |

## Left out

- `save_workspace_data` and the pickle format: the file is the `StoreFile` value, and writing it is returning a new one. Directory creation and write errors are not modelled.
- The reasons a load fails (corrupt pickle, permissions) are merged into `Unreadable`, and the logging on that path is left out.
- `datetime.now().isoformat()` is the `now` parameter, since it reads the clock.
- The OpenAI chat completion call, its prompt and model name: `HandleMessage` receives its reply as `completion`, `None` when the call raised or the reply had no content. The text of the event only feeds that call, so it is not modelled.
- `reactions_add` is a function parameter that decides each call's outcome. The bot token is not modelled.
- `print`, `logger.error` and the `logging` calls in workspace_store.py are omitted, since they do not affect any result.
- Python dict aliasing is not modelled: `ensure_workspace_exists` returns a record that shares storage with the map.
- `api_diagnostics.py`, `home_tab.py`, `cron.py`, `wsgi.py` and the OAuth and app setup in `app.py` are not part of this model.

## Findings

| source | as written | input that shows it | evidently intended | confidence | as-written member | corrected member |
|---|---|---|---|---|---|---|
| app.py:31-51 | When the completion call raises (or the reply has no content, so `.strip()` raises), the `except` only logs. The `for` loop then reads `emojis`, which was never bound, and the handler raises `UnboundLocalError`. | A top-level message (no `thread_ts`) while the chat completion call fails | Log the failure and try no reaction | high, not executed | `EmojiReact.HandleMessageAsWritten` | `EmojiReact.HandleMessage` |
