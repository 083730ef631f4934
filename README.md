# Fenix home-screen tips, browser-screen reducer and multi-pair string replace

A Dafny model of three small pieces of the Fenix browser's application logic,
with proofs of what each promises.

- **Tips** (`tips.dfy`): the tip manager of the home screen. A `TipManager`
  object holds an ordered `tipList` of tips. The constructor fills it with the
  five declared tips (default browser, what's new, private links, hide tips,
  moving notice). `PopulateTipList` appends the tips that the settings call
  for. `GetTipOrCriticalMessage` returns at most one tip: the first HIGH tip,
  else the first MEDIUM tip, else a random tip of the whole list. It returns
  nothing when the list is empty or tips are switched off. `GetAllTips` returns
  the whole list, or nothing when tips are switched off. The manager is a class
  with a `seq<Tip>` field. The two population methods grow the field. The
  selection is a loop method proved equal to the specification function
  `SelectTip`, and the priority properties are lemmas about that function.
- **BrowserStore** (`browser_store.dfy`): the state of the browser screen's
  quick action sheet. There are five boolean flags inside a root record, five
  actions, and pure reducers. Each action overwrites exactly one flag. The
  reducer's contract says this using a flag-by-flag view of the state (`Flag`,
  `FlagValue`, `Target`, `Payload`). The lemmas prove field isolation,
  idempotence, commutation, and that the last write wins over any sequence of
  dispatched actions.
- **StringExt** (`string_ext.dfy`): `String.replace(pairs)`. It is a left fold
  of the single-key replace over the pairs of a map, written as a loop method
  `Replace` proved equal to the fold `ReplacePairs`. The single-key replace
  `ReplaceAll` follows Kotlin's `String.replace(oldValue, newValue)` on
  strings of Unicode scalar values. Occurrences are found from left to right
  and do not overlap. The empty key matches before every character of the
  sequence and at the end. For a non-empty key, `ReplaceAll` is proved to be
  a split of the string into pieces followed by a join of the pieces with the
  replacement. No piece contains the key, so no occurrence of the key is left
  between the replacements, and joining the pieces with the key rebuilds the
  string. For the empty key, the result is proved to be the join of the single
  characters, with an empty piece at each end.

External inputs are parameters:
- `shouldDisplayTips`, `isDefaultBrowser` and `shouldHighlightWhatsNew` are
  booleans.
- The result of `tipList.random()` is a caller-chosen `randomIndex`. When the
  list is non-empty, it must be an index into the list (`IsDraw`).

Two facts about the tip manager's code shape the model:
- The constructor runs `forceAddAllTips` (`TipManager.kt:124`). So a fresh
  manager holds the HIGH moving notice and, with tips shown, always selects it
  (`FreshManagerSelection`, `AllTipsSelectMoving`).
- Once the list is non-empty and tips are shown, the fallback draws from the
  whole list, not only from its LOW tips (`TipManager.kt:138`). `SelectTip`
  does the same.

## Model

| member | source | states |
|---|---|---|
| `Tips.DeclaredTips` | app/src/main/java/org/mozilla/fenix/home/sessioncontrol/viewholders/tips/TipManager.kt:47-122 | The five declared tips are distinct and well formed (every SWITCH tip has a preference key). In forced order their priorities are LOW, MEDIUM, LOW, LOW, HIGH. |
| `Tips.FirstWithPriority` | app/src/main/java/org/mozilla/fenix/home/sessioncontrol/viewholders/tips/TipManager.kt:130-136 | The `forEach` scan with early return. The result is the least index whose tip has the priority, or None exactly when no tip has it. |
| `Tips.SelectTip` | app/src/main/java/org/mozilla/fenix/home/sessioncontrol/viewholders/tips/TipManager.kt:127-139 | The selection returns at most one tip, and any returned tip is in the list. It is empty exactly when the list is empty or tips are off. |
| `Tips.SelectTipHigh` | app/src/main/java/org/mozilla/fenix/home/sessioncontrol/viewholders/tips/TipManager.kt:130-132 | With tips on, the first HIGH tip in list order is returned, whatever the random index. |
| `Tips.SelectTipMedium` | app/src/main/java/org/mozilla/fenix/home/sessioncontrol/viewholders/tips/TipManager.kt:134-136 | With tips on and no HIGH tip, the first MEDIUM tip is returned, whatever the random index. |
| `Tips.SelectTipDraw` | app/src/main/java/org/mozilla/fenix/home/sessioncontrol/viewholders/tips/TipManager.kt:138 | With only LOW tips, the tip at the drawn index of the whole list is returned. |
| `Tips.PopulatedTipsContents` | app/src/main/java/org/mozilla/fenix/home/sessioncontrol/viewholders/tips/TipManager.kt:145-160 | The regular population adds 2 to 4 tips. DefaultBrowser is added exactly when the app is not the default browser, and first. WhatsNew is added exactly when highlighted, before the last two. PrivateLinks and HideTips come last. The moving notice is never added. |
| `Tips.PopulatedSelection` | app/src/main/java/org/mozilla/fenix/home/sessioncontrol/viewholders/tips/TipManager.kt:127-160 | On a regularly populated list, the selection is WhatsNew whatever the draw when it is highlighted. Otherwise it is the drawn tip. |
| `Tips.AllTipsSelectMoving` | app/src/main/java/org/mozilla/fenix/home/sessioncontrol/viewholders/tips/TipManager.kt:124-139 | On the five-tip list of the forced population, the selection is the moving notice whatever the draw. |
| `Tips.TipManager.constructor` | app/src/main/java/org/mozilla/fenix/home/sessioncontrol/viewholders/tips/TipManager.kt:124 | A new manager holds exactly [DefaultBrowser, WhatsNew, PrivateLinks, HideTips, FenixMoving] and holds only declared tips. |
| `Tips.TipManager.GetTipOrCriticalMessage` | app/src/main/java/org/mozilla/fenix/home/sessioncontrol/viewholders/tips/TipManager.kt:127-139 | The guard and the two early-exit scans return exactly `SelectTip` of the current list. The list is only read. |
| `Tips.TipManager.GetAllTips` | app/src/main/java/org/mozilla/fenix/home/sessioncontrol/viewholders/tips/TipManager.kt:141-142 | With tips on, the result is exactly the list in order. With tips off, it is empty. |
| `Tips.TipManager.PopulateTipList` | app/src/main/java/org/mozilla/fenix/home/sessioncontrol/viewholders/tips/TipManager.kt:145-160 | The old list stays as a prefix, and `PopulatedTips` of the two settings is appended. The list still holds only declared tips. |
| `Tips.TipManager.ForceAddAllTips` | app/src/main/java/org/mozilla/fenix/home/sessioncontrol/viewholders/tips/TipManager.kt:163-173 | The five declared tips are appended in order after the old list. |
| `Tips.SelectionAmongAllTips` | app/src/main/java/org/mozilla/fenix/home/sessioncontrol/viewholders/tips/TipManager.kt:127-142 | Every tip the selection returns is also in what `GetAllTips` returns for the same setting. |
| `Tips.SelectionWellFormed` | app/src/main/java/org/mozilla/fenix/home/sessioncontrol/viewholders/tips/TipManager.kt:27-30 | For a manager whose list holds only declared tips, every selected tip is well formed: a SWITCH tip carries its preference key. |
| `Tips.FreshManagerSelection` | app/src/main/java/org/mozilla/fenix/home/sessioncontrol/viewholders/tips/TipManager.kt:124-139 | Constructing a manager and asking it for a tip with tips on gives the moving notice, for every draw. |
| `BrowserStore.Reduce` | app/src/main/java/org/mozilla/fenix/components/toolbar/BrowserStore.kt:67-81 | The targeted flag takes the action's payload (true for BounceNeededChange), and every other flag keeps its value. |
| `BrowserStore.BrowserStateReducer` | app/src/main/java/org/mozilla/fenix/components/toolbar/BrowserStore.kt:52-61 | The top-level reducer is total over the sealed family. It has the same flag-by-flag effect as `Reduce`, to which it delegates. |
| `BrowserStore.FlagsDetermineState` | app/src/main/java/org/mozilla/fenix/components/toolbar/BrowserStore.kt:14-31 | Two states are equal exactly when their five flags agree. |
| `BrowserStore.ReduceIsolatesFields` | app/src/main/java/org/mozilla/fenix/components/toolbar/BrowserStore.kt:68-80 | A flag that an action changes is the flag the action targets. |
| `BrowserStore.BookmarkedOnlyChangesBookmarked` | app/src/main/java/org/mozilla/fenix/components/toolbar/BrowserStore.kt:69-70 | `BookmarkedStateChange(b)` sets `bookmarked = b` and leaves the sheet otherwise unchanged. |
| `BrowserStore.BounceNeededSetsOnlyBounce` | app/src/main/java/org/mozilla/fenix/components/toolbar/BrowserStore.kt:75-76 | `BounceNeededChange` sets `bounceNeeded` to true from any state and changes nothing else. |
| `BrowserStore.BounceNeededIsSticky` | app/src/main/java/org/mozilla/fenix/components/toolbar/BrowserStore.kt:68-80 | No action clears `bounceNeeded` once it is set. |
| `BrowserStore.ReduceIdempotent` | app/src/main/java/org/mozilla/fenix/components/toolbar/BrowserStore.kt:68-80 | Applying any action twice gives the same state as applying it once. |
| `BrowserStore.ReduceCommutes` | app/src/main/java/org/mozilla/fenix/components/toolbar/BrowserStore.kt:68-80 | Two actions that target different flags give the same state in either order. |
| `BrowserStore.ReduceOverwrites` | app/src/main/java/org/mozilla/fenix/components/toolbar/BrowserStore.kt:68-80 | Of two actions on the same flag, the later alone decides the state. |
| `BrowserStore.ReduceAllSnoc` | app/src/main/java/org/mozilla/fenix/components/toolbar/BrowserStore.kt:7-8 | Dispatching one more action through the store's reducer reduces the state reached so far. |
| `BrowserStore.ReduceAllLastWriteWins` | app/src/main/java/org/mozilla/fenix/components/toolbar/BrowserStore.kt:7-8 | After any sequence of dispatches, each flag holds the payload of the last action targeting it, or its initial value when none did. |
| `StringExt.Replace` | app/src/main/java/org/mozilla/fenix/ext/String.kt:17-21 | After the loop, `result` is the left fold `ReplacePairs` over the pairs in order. |
| `StringExt.ReplacePairsEmpty` | app/src/main/java/org/mozilla/fenix/ext/String.kt:18-20 | With no pairs, the input is returned unchanged. |
| `StringExt.ReplacePairsSingle` | app/src/main/java/org/mozilla/fenix/ext/String.kt:19 | With one pair (l, r), the result is `ReplaceAll(s, l, r)`. |
| `StringExt.ReplacePairsAppend` | app/src/main/java/org/mozilla/fenix/ext/String.kt:18-20 | The pairs of p + q act as those of p followed by those of q. |
| `StringExt.ReplacePairsSnoc` | app/src/main/java/org/mozilla/fenix/ext/String.kt:18-20 | Each pair is applied to the output of the pairs before it: `ReplacePairs(s, p + [(l, r)]) == ReplaceAll(ReplacePairs(s, p), l, r)`. |
| `StringExt.ReplacePairsNoKeyOccurs` | app/src/main/java/org/mozilla/fenix/ext/String.kt:18-20 | If no key occurs in the input, the result is the input. |
| `StringExt.ReplacePairsDropsIdentityPair` | app/src/main/java/org/mozilla/fenix/ext/String.kt:19 | A pair whose key equals its value can be removed from anywhere in the pairs without changing the result. |
| `StringExt.ReplaceAll` | app/src/main/java/org/mozilla/fenix/ext/String.kt:19 | The single replace of one pair, on strings of Unicode scalar values. A key that does not occur leaves the string unchanged. A key replaced by itself leaves it unchanged too, the empty key included. |
| `StringExt.ReplaceAllEmptyKeyExample` | app/src/main/java/org/mozilla/fenix/ext/String.kt:19 | With the empty key, the replacement goes around every character: "abc" becomes "xaxbxcx". |
| `StringExt.ReplaceAllIsSplitJoin` | app/src/main/java/org/mozilla/fenix/ext/String.kt:19 | For a non-empty key, the single replace equals splitting at the leftmost non-overlapping occurrences and joining with the replacement. |
| `StringExt.SplitJoinRoundTrip` | app/src/main/java/org/mozilla/fenix/ext/String.kt:19 | Joining the pieces of a split with the key itself gives back the original string. |
| `StringExt.SplitFirstPrefix` | app/src/main/java/org/mozilla/fenix/ext/String.kt:19 | The first piece of a split is a prefix of the string. |
| `StringExt.SplitPiecesHoldNoKey` | app/src/main/java/org/mozilla/fenix/ext/String.kt:19 | For a non-empty key, no piece of the split contains the key, so with `ReplaceAllIsSplitJoin` every occurrence of the key is replaced. |
| `StringExt.ReplaceAllEmptyKey` | app/src/main/java/org/mozilla/fenix/ext/String.kt:19 | For every string, the empty-key replace is the join, with the replacement, of an empty piece, each character alone and an empty piece. The replacement goes before every character and after the last. |

## Left out

- The tip actions' effects (starting activities, opening pages, recording that "what's new" was viewed, the platform version check) are platform calls. Each tip carries an opaque `TipAction` tag that is never performed.
- Icon, title, description, button and preference-key resource identifiers are kept as opaque resource names. Only whether a SWITCH tip has a preference key is constrained.
- Settings reads (`shouldDisplayTips`, `isDefaultBrowser`) and `WhatsNew.shouldHighlightWhatsNew` are persistence reads. They are passed in as booleans.
- `tipList.random()` is a library random draw. It is replaced by a caller-supplied index into the list, so the model says which tip is returned for each draw but nothing about the distribution.
- The `Store` base class behind `BrowserStore` (dispatch, subscribers, unsubscribe, threading) is library code that is not part of this model. Only its reducer is modelled, and a sequence of dispatches is modelled as the fold `ReduceAll` of that reducer.
- `getHostFromUrl` and `urlToTrimmedHost` depend on URL parsing, exceptions, the public suffix list and coroutines. They are not part of this model.
- A Kotlin `Map`'s iteration order is taken as given: the pairs are an explicit sequence in that order. The model does not require the keys to be distinct, as a map's are.
- `getAllTips` returns the live `tipList` object, while `GetAllTips` returns a snapshot value of it. `populateTipList` is private and nothing calls it (`init` calls only `forceAddAllTips`), so no real manager holds the list that `PopulatedSelection` describes. Neither changes observable behaviour, because the list does not change after `init`.
- `StringExt.ReplaceAll` works on sequences of Unicode scalar values, and Kotlin's strings are sequences of UTF-16 code units. For non-empty keys on well-formed text the results agree. With the empty key they differ on characters outside the Basic Multilingual Plane: Kotlin inserts the replacement between the two halves of a surrogate pair. Strings holding lone surrogates cannot be represented.
- `StringExt.ReplaceAllIsSplitJoin` and `StringExt.SplitJoinRoundTrip` are stated for non-empty keys only. `StringExt.ReplaceAllEmptyKey` states the empty key's behaviour.
- `StringExt.SplitPiecesHoldNoKey` does not by itself pin the split down to the leftmost occurrences: with key "aa", the string "aaa" has two key-free splits. Leftmost choice follows from the definition of `Split`, and no lemma states it as a separate property.
