# API container failover and retry with backoff, in Dafny

This project models `facebookads/utils/api_utils.py` from the Facebook Ads
Python SDK. The file has two helpers:

- `ApiContainer`, a failover rotation over a pool of API handles. Handles
  in rotation sit in the active list (`api_list`). A handle that failed is
  set aside in the awaiting list (`awaiting_apis`). Once the active list is
  used up, the awaiting handles become active again.
- `request_execution_retry`, a decorator with exponential backoff. After each
  failure of the retried exception kind, it sleeps, multiplies the delay by
  `backoff`, sets the caller's current handle aside in the container and
  takes the container's current handle.

`api_container.dfy` (module `ApiContainers`) has the container. It is a
class whose two `seq` fields are updated by its methods. The pure functions
`Refill`, `Current` and `Demote` specify those methods on a value `Pool`.
`RemoveFirst` models the guarded removal of `to_awaiting`: the membership
test, then the list's `remove`. When the handle is absent it returns the list
unchanged, as the guard does; `remove` itself would raise `ValueError` there,
but the guard never lets that case through. `RotateStep`/`Rotations` model
the rotation the retry loop performs. `request_retry.dfy` (module
`RequestRetry`) has the parameter checks and the delay progression. It also
has the retry loop, as a method driven by a finite sequence of attempt
outcomes.

Behaviour of the code worth knowing:

- When the failing handle is the only active one, the refill puts the
  awaiting handles first and the failed one last. The same handle comes
  back exactly when nothing was awaiting or the oldest awaiting handle
  equals it; otherwise the oldest awaiting handle comes next
  (`RotateLastActive`). With duplicates this happens within one call: from
  a fresh container over `[x, y, x]`, two failures leave `[x]` active and
  `[x, y]` awaiting, and the third failure hands `x` back while `y` waits
  (`RepeatWhileAwaiting`).
- If the caller's handle was never in the container, the first rotation adds
  it to the pool for good: the pool gains one copy of it, and later
  rotations keep the pool as it then is (`RotateStepConserves`,
  `RotationsConserve`).
- The decorator's docstring documents a `tries` argument that does not
  exist. The loop retries with no limit.

## Model

| member | source | states |
|---|---|---|
| `ApiContainers.ApiContainer.constructor` | facebookads/utils/api_utils.py:38-40 | the active list is the given list (a value, so never aliased with the caller's), the awaiting list is empty, and the first fetch returns the list's head or the index error when it is empty |
| `ApiContainers.ApiContainer.GetApi` | facebookads/utils/api_utils.py:42-46 | with a non-empty active list: returns its head and changes neither list; with an empty one: the active list becomes the old awaiting list, the awaiting list becomes empty, and the result is the old awaiting head, or the index error when both were empty; the combined multiset is unchanged |
| `ApiContainers.ApiContainer.ToAwaiting` | facebookads/utils/api_utils.py:48-51 | the awaiting list gains `api` at its end; the active list loses its first occurrence of `api`, if any; the combined multiset is unchanged when `api` was active and gains one `api` otherwise |
| `ApiContainers.FirstIndex` | facebookads/utils/api_utils.py:51 | the index is an occurrence of `x` and no earlier element equals `x` |
| `ApiContainers.RemoveFirst` | facebookads/utils/api_utils.py:50-51 | the guarded removal: removing a present element shortens the list by one; for an absent element the guard's no-op leaves the list as it is |
| `ApiContainers.RemoveFirstMultiset` | facebookads/utils/api_utils.py:51 | removal takes exactly one copy of `x` out of the contents, or none when `x` is absent |
| `ApiContainers.RemoveFirstAt` | facebookads/utils/api_utils.py:51 | only the first occurrence is removed, and every other element keeps its relative order |
| `ApiContainers.Refill` | facebookads/utils/api_utils.py:43-45 | the refill keeps the combined multiset and the concatenated order of both lists, and leaves the active list empty only when both lists were empty |
| `ApiContainers.Current` | facebookads/utils/api_utils.py:42-46 | the fetched handle is the head of the active list followed by the awaiting list; the index error happens exactly when both lists are empty |
| `ApiContainers.GetApiIdempotent` | facebookads/utils/api_utils.py:42-46 | a second fetch right after a first one returns the same result and changes nothing |
| `ApiContainers.Demote` | facebookads/utils/api_utils.py:48-51 | the awaiting list gains the handle at its end; the active list shrinks by one when the handle was active and is unchanged otherwise |
| `ApiContainers.DemoteConserves` | facebookads/utils/api_utils.py:48-51 | demoting keeps the combined multiset when the handle was active and adds exactly one copy of it otherwise |
| `ApiContainers.DemoteRemovesFirst` | facebookads/utils/api_utils.py:48-51 | after demoting an active handle, the active list is the old one without its first occurrence, other elements in order |
| `ApiContainers.DemoteDuplicate` | facebookads/utils/api_utils.py:48-51 | a handle listed twice as active loses only one copy, so equal handles end up both active and awaiting |
| `ApiContainers.RotateStep` | facebookads/utils/api_utils.py:86-87 | the rotation step never meets the index error; the new handle is the head of the new active list and the first of (active without the old handle) + awaiting + [old handle] |
| `ApiContainers.RotateStepConserves` | facebookads/utils/api_utils.py:86-87 | a rotation step keeps the combined multiset when the failing handle was active, and adds one copy of it otherwise |
| `ApiContainers.RotateLastActive` | facebookads/utils/api_utils.py:42-51 | when the failing handle is the only active one, the active list becomes the awaiting handles followed by it, the awaiting list empties, and the next handle is the oldest awaiting one (the same handle when nothing was awaiting) |
| `ApiContainers.RepeatWhileAwaiting` | facebookads/utils/api_utils.py:42-51 | from a fresh container over `[x, y, x]` with `x != y`, two failures leave `[x]` active and `[x, y]` awaiting, and the next step hands `x` back although `y` is awaiting |
| `ApiContainers.Rotations` | facebookads/utils/api_utils.py:78-87 | k failures use k + 1 handles, starting with the caller's, and after any failure the handle in use heads the active list |
| `ApiContainers.RotationsConserve` | facebookads/utils/api_utils.py:78-87 | after the first rotation, further rotations neither gain nor lose a handle |
| `ApiContainers.RoundRobin` | facebookads/utils/api_utils.py:42-51 | from a fresh container over `a` started on `a[0]`, the handle after j failures is `a[j % n]`, n being the length of `a`; the handles before that position are awaiting, and those from it on are active |
| `ApiContainers.DrainThenRefill` | facebookads/utils/api_utils.py:42-51 | demoting every active handle in order moves them to the end of the awaiting list; the next fetch refills once and returns the oldest awaiting handle |
| `RequestRetry.RequestExecutionRetry` | facebookads/utils/api_utils.py:68-72 | parameters are accepted exactly when backoff > 1 and delay > 0; a backoff <= 1 is reported first, then a delay <= 0 |
| `RequestRetry.DefaultsAccepted` | facebookads/utils/api_utils.py:54 | the default parameters, a delay of 6 and a backoff of 2, pass both checks |
| `RequestRetry.PowAtLeastOne` | facebookads/utils/api_utils.py:85 | repeated multiplication by a backoff of at least one never goes below one |
| `RequestRetry.SleepPositive` | facebookads/utils/api_utils.py:76-85 | with accepted parameters, every sleep is at least the initial delay, which is positive |
| `RequestRetry.NextSleep` | facebookads/utils/api_utils.py:85 | multiplying the delay before retry k by the backoff gives the delay before retry k + 1 |
| `RequestRetry.SleepIncreasing` | facebookads/utils/api_utils.py:83-85 | with accepted parameters, the sleeps are positive and strictly increasing in the retry number |
| `RequestRetry.SleepsAt` | facebookads/utils/api_utils.py:76-85 | the sleep before retry j (counting from 0) is `delay * backoff^j` |
| `RequestRetry.TotalSleep` | facebookads/utils/api_utils.py:83-85 | the total sleep over k failures times (backoff - 1) is `delay * (backoff^k - 1)` |
| `RequestRetry.TwoFailures` | facebookads/utils/api_utils.py:83-85 | with delay 0.01 and backoff 2, two failures sleep 0.01 then 0.02, 0.03 in all |
| `RequestRetry.Failures` | facebookads/utils/api_utils.py:78-82 | the count of retried failures points at the first attempt that returns or raises another kind; every earlier attempt raised the retried kind |
| `RequestRetry.Rotate` | facebookads/utils/api_utils.py:86-87 | demoting the handle in use and fetching the current one changes the container and picks the next handle exactly as `RotateStep` says |
| `RequestRetry.Wrapper` | facebookads/utils/api_utils.py:75-87 | when the wrapped function leaves the caller's handle and the container alone, a call with k retried failures before the attempt that ends it sleeps exactly the delays before retries 0..k-1, performs k rotation steps on the container, and returns the value of that attempt or propagates its other exception; with k = 0 it sleeps nothing and leaves the container unchanged |

## Left out

- `warning` (lines 26-30) is not modelled. It only reads a global strict-mode flag, then raises an external exception type or calls Python's `warnings.warn`.
- `time.sleep` is not performed. The wrapper records each delay it would sleep in the `sleeps` output instead.
- Exception matching against an arbitrary class is reduced to three attempt outcomes: return, retried kind, other kind. The attempts' outcomes are an input; the wrapped function, its `*args`/`**kwargs` and the decorator closure machinery are not modelled. The default retried kind, `Exception`, is just one choice of what counts as the retried kind.
- `cls.get_default_api_container()` becomes a container parameter. The `args[0]._api` attribute becomes a handle parameter, and the `handles` output gives the handles the wrapper assigned; its last element is the handle it left on the caller's object.
- Wrapper: assumes the wrapped function changes neither the caller's `_api` nor the container during an attempt. The source reads `args[0]._api` afresh at each failure and demotes whatever it holds, so a function that reassigns it, or a nested decorated call sharing the default container, makes the source demote and rotate differently from the model, which demotes the handle it assigned last and owns the container for the call.
- Wrapper: requires that some attempt ends the call. When every attempt fails with the retried kind, the source loops forever; the model says nothing about that case.
- A rejected decorator is a `Rejected` value carrying which check failed, not a raised `ValueError`.
- Delays and backoff are exact reals. Floating-point rounding of `_delay *= backoff` is not modelled.
- Handles are compared with Dafny equality, standing for Python's `==` in `in` and `remove`. Identity-only comparison is not modelled separately.
- When `get_api` refills, the active list becomes the very list object that was awaiting, and the awaiting field gets a new empty list. No other reference to that object remains inside the container, so value semantics give the same lists. Aliasing by outside holders of the container's lists is not modelled.
- Concurrent use of one container from several threads is not modelled. The lists are shared and unlocked, and the model is sequential.
