# dbuz core in Dafny

dbuz is a command-line bridge between a D-Bus message bus and standard I/O.
`subscribe` prints every broadcast signal that matches a filter, one line
per signal. `once` prints the first matching signal without a trailing
newline. `publish` emits one signal whose body is the command's arguments.
This project models the data-shaping core of `dbuz.go`:

- **Filter derivation** (`signalOptions`, module `Filter`). It turns `--path` and `--name` into an
  ordered rule sequence. That sequence is: a path rule (`path_namespace` for a path ending in
  `/*`, otherwise an exact `path`), then the `member` rule (the last `.`-section of the name),
  then the `interface` rule (the sections before it). The rule keys are those of the
  "Match Rules" section of the D-Bus Specification. Module `Bus` gives them the meaning
  that section describes, so that lemmas can say which signals a derived filter admits.
- **Payload conversion** (`stringsToIterfaces`, `iterfacesToStrings`, module `Payload`). A
  signal body is a sequence of tagged `Value`s. Go's `str.(string)` panics on a non-string
  element; here that panic is an explicit `PayloadError` naming the first offending index.
  Both builders are methods that fill a preallocated array index by index. They are proved
  equal to the specification functions `ToValues` and `AsStrings`.
- **Rendering and the command loops** (module `Dispatch`). `subscribe` writes
  `Join(strs, " ") + "\n"` per signal. `once` writes `Join(strs, " ")` for the first signal
  only. `publish` emits the path and name verbatim, with the arguments as string values.
  The signals the bus delivers are a finite sequence in delivery order. Its end stands for
  the channel closing. A payload panic ends `subscribe` after the lines already written.
  `once` on a channel closed before any signal fails with `ChannelClosed`. That case is the
  nil-signal dereference at dbuz.go:101-102.

Module `Strings` holds the subset of Go's `strings` package the source uses, as
specification functions. These are `HasSuffix`, `TrimSuffix`, `Split` with a
one-character separator (`Split("") == [""]`, as in Go) and `Join`. The module also has
the split/join round-trip lemmas. It also defines `HasPrefix`, which the source never
calls. It is a helper of the model, used by `Bus.Accepts` and `Dispatch.OnceIsFirstSubscribeLine`. Module `Wrappers` holds `Option` and `Result`.

Two consequences of the code, stated as the code behaves:
- The path `/*` alone yields `PathPrefix("")`, an empty namespace. It is not a valid
  object path. For that namespace `Bus.Accepts` admits the empty path and every path starting with `/`, that is every valid object path.
  No lemma draws a conclusion from that reading, and what the bus itself does with
  such a rule is not part of this model.
- A body with no values and a body holding one empty string both render as the empty
  line. For that reason the space round trip (`Dispatch.OnceLineRoundTrip`) needs at
  least one argument.

## Model

| member | source | states |
|---|---|---|
| `Strings.HasSuffix` | dbuz.go:137 | `strings.HasSuffix`: the suffix is no longer than the string and equals its last characters |
| `Strings.TrimSuffix` | dbuz.go:139 | `strings.TrimSuffix`: when the string ends with the suffix, the result followed by the suffix is the string; otherwise the string is unchanged |
| `Strings.Join` | dbuz.go:156 | `strings.Join` (also used at dbuz.go:81 and dbuz.go:102): `""` for no pieces, the piece itself for one, otherwise the pieces with the separator between consecutive ones |
| `Strings.Split` | dbuz.go:148 | `strings.Split` on `.` always gives at least one section, and no section contains the separator |
| `Strings.JoinSplit` | dbuz.go:148-156 | joining the sections of a split with the same separator rebuilds the input |
| `Strings.SplitJoin` | dbuz.go:148-156 | splitting the join of separator-free sections (at least one) gives the sections back |
| `Strings.SplitCount` | dbuz.go:148-154 | a name has more than one section exactly when it contains `.` |
| `Filter.PathRules` | dbuz.go:134-144 | the path part of the filter: empty exactly for an empty path, otherwise one path rule |
| `Filter.NameRules` | dbuz.go:146-159 | the name part of the filter: empty exactly for an empty name, otherwise at most two rules, none of them a path rule |
| `Filter.SignalOptions` | dbuz.go:131-162 | the whole filter, path rules followed by name rules: at most three rules, and none exactly when both expressions are empty |
| `Filter.BuildSignalOptions` | dbuz.go:131-162 | the append-by-append builder returns exactly the rule sequence `SignalOptions(path, name)` |
| `Filter.PathRuleMeaning` | dbuz.go:134-144 | no path rule iff the path is empty; a `/*` path gives `PathPrefix` of the path minus `/*` (and `/*` gives `PathPrefix("")`); any other non-empty path gives `ExactPath` verbatim |
| `Filter.NameRuleMeaning` | dbuz.go:146-159 | a name without `.` gives only `Member(name)`; a dotted name gives a `.`-free member and then an interface, and interface + "." + member == name |
| `Filter.NameRulesOfQualified` | dbuz.go:148-157 | conversely, the name interface + "." + member, with no `.` in member, yields exactly `[Member(member), Interface(interface)]` |
| `Filter.SignalOptionsShape` | dbuz.go:131-161 | ranks strictly increase (path rule, member rule, interface rule); the length is 1 for a non-empty path, plus 1 or 2 for a name without or with `.`; at most 3; `("", "")` gives `[]`; a path rule comes first |
| `Filter.SinglePathRule` | dbuz.go:135-144 | a non-empty path contributes exactly one rule, at position 0; an empty path contributes none |
| `Filter.SingleMemberRule` | dbuz.go:146-151 | a non-empty name contributes exactly one `Member` rule, right after the path rule if there is one |
| `Filter.FilterAdmits` | dbuz.go:131-161 | with an exact path and a dotted name, the filter admits a signal (member without `.`) iff the signal's path is that path and its interface + "." + member is the name |
| `Filter.WildcardAdmitsDescendants` | dbuz.go:136-140 | for a non-empty namespace `ns`, the filter for `ns/*` admits signals from `ns` and from every path below `ns/` |
| `Payload.ToValues` | dbuz.go:164-170 | wrapping arguments preserves length and order, and every element is the `String` variant |
| `Payload.StringsToInterfaces` | dbuz.go:164-170 | the index-by-index array fill returns `ToValues(input)` |
| `Payload.AsStrings` | dbuz.go:172-178 | succeeds iff every element is a string, and then returns those strings in order; otherwise fails naming the first non-string element and its index |
| `Payload.InterfacesToStrings` | dbuz.go:172-178 | the index-by-index fill that stops at the failing type assertion returns `AsStrings(input)` |
| `Payload.StringsRoundTrip` | dbuz.go:164-178 | `iterfacesToStrings(stringsToIterfaces(xs))` succeeds with `xs` |
| `Payload.ValuesRoundTrip` | dbuz.go:164-178 | a body that converts to strings `xs` is exactly `ToValues(xs)` |
| `Payload.NonStringFails` | dbuz.go:174-176 | any non-string element makes the conversion fail, at or before that element |
| `Dispatch.OnceLine` | dbuz.go:102 | the body's strings joined by single spaces; it succeeds exactly when the body is all strings, and otherwise gives the payload error of the first non-string |
| `Dispatch.SubscribeLine` | dbuz.go:81 | the same join followed by `"\n"`: it succeeds exactly when the body is all strings, and then ends with a newline |
| `Dispatch.SubscribeTranscript` | dbuz.go:76-82 | the subscribe output for a run of signals, one line per signal until the first bad body. Its contract states only that a run without a panic writes at least one character per signal; when it panics is stated by `Dispatch.SubscribePanics` |
| `Dispatch.SubscribePanics` | dbuz.go:76-82 | `subscribe` panics exactly when some body is not all strings (newlines allowed), and the panic carries the `str.(string)` error (dbuz.go:175) of the first such body |
| `Dispatch.SubscribeLineIsOnceLine` | dbuz.go:81-102 | both renderings succeed iff the body is all strings; the subscribe line is the once output plus exactly one newline; on failure both give the same error |
| `Dispatch.OnceLineRoundTrip` | dbuz.go:102 | for at least one argument and no space in any argument, splitting the rendered line on spaces gives the arguments back |
| `Dispatch.Subscribe` | dbuz.go:76-82 | the receive loop writes exactly `SubscribeTranscript(events)`: one rendered line per signal in order, stopping with the error at the first bad body |
| `Dispatch.SubscribeAppend` | dbuz.go:76-82 | signals after a panicking one are never rendered; otherwise the output of `a + b` is the output of `a` followed by that of `b` |
| `Dispatch.OneLinePerSignal` | dbuz.go:76-82 | when every value is a string without a newline, the output splits on newlines into each signal's once output, in order, followed by `""` |
| `Dispatch.Once` | dbuz.go:98-102 | `once` renders the first delivered signal's body only and reads no later signal; a bad body fails with its payload error; a channel closed before any signal fails with `ChannelClosed`, the nil-signal panic at dbuz.go:101-102 |
| `Dispatch.OnceIsFirstSubscribeLine` | dbuz.go:101-102 | the once output plus a newline starts the subscribe output for the same signals; a bad first body makes both fail with the same error and write nothing |
| `Dispatch.Publish` | dbuz.go:114-118 | `publish` hands over the path and name verbatim, and the arguments as `ToValues(args)` |
| `Dispatch.PublishThenReceive` | dbuz.go:114-118 | a published signal, delivered with an interface and member that spell the name, passes the subscriber's filter for the same exact path and name, and renders as the arguments joined by spaces |

## Left out

- Bus transport: connecting (`ConnectSessionBus`, `ConnectSystemBus`, `Dial`), `AddMatchSignal`, `Signal`, `Emit` and `Close` (dbuz.go:46-53, 69, 74, 114) are library calls. The model stops at the rules handed to `AddMatchSignal` and the `Emission` handed to `Emit`. It assumes nothing about registration errors. The error that `Emit` returns is discarded at dbuz.go:114, so it is not modelled.
- Dispatch.PublishThenReceive: how the bus library splits an emitted name into interface and member is not visible. The lemma takes a delivery whose interface + "." + member is the name as given.
- The buffered channel, the background receive goroutine and blocking. Delivered signals are a finite sequence, and its end stands for the channel closing. An endless `subscribe` is covered only through every finite prefix of deliveries.
- Waiting: an open channel with no signal yet blocks `once` and `subscribe`. The model has no blocked state, because a finite delivery sequence always ends in the channel closing.
- The verbose `%+v` dump to standard error (dbuz.go:77-79). It depends on Go's reflection-based formatting.
- The command-line scaffolding: flags, defaults, commands, `app.Before`, `app.Run` and `log.Fatal` (dbuz.go:18-128). The path and name are plain parameters.
- The global connection and its deferred `Close` (dbuz.go:15, 67, 92, 112). These are resource lifecycle only.
- Bus.Accepts: only the four rule keys the source produces are given a meaning. The bus daemon's other match keys and its validation of object paths are not modelled. For the empty namespace from a bare `/*` path it admits the empty path and every path starting with `/`, which may differ from what the bus does with an invalid object path.
- Go strings are byte sequences, and the model uses `seq<char>`. Every separator and suffix the core uses is ASCII, so the two agree on valid UTF-8. Strings that are not valid UTF-8 are not represented.
