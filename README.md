# tusk utilities: requirement matching, admin checks, message parsing

A Dafny model of `utils.go` of the tusk IRC moderation bot. The file has
three jobs:

- **Matching.** `Matches(requirement, checking)` decides whether a string
  satisfies a requirement written in the bot's configuration. A requirement
  is one of three things:
  - a regular expression, when it starts with `re:`;
  - a glob, when it starts or ends with `*`: suffix, prefix or contains,
    with every `*` of the requirement deleted to get the text it looks for;
  - a literal otherwise.
- **Authorisation.** `IsAdmin` searches the configured admin requirements for
  one that accepts the sender by issuer (the nick, or the ident when the
  nick is empty), by host or by `ident@host`.
  `ParseMessage` turns a chat event into the record the command handlers
  read, a `NarwhalMessage`. It works out who sent the event and whether
  they are authenticated:
  - in a channel, the sender must be trusted there;
  - in a direct message, an admin requirement must accept the full issuer.
  The sender is an admin when they are authenticated and `IsAdmin` accepts
  them.
- **Command parsing.** `ParseMessage` also splits the text into a command
  (the first word, when the trimmed text starts with `.`, with its dots
  deleted), its parameters (the other words, split on single spaces), and
  the text without the command.
- **List helpers.**
  - `DeduplicateList` returns the distinct strings, sorted.
  - `IsInStringArr` tests membership.
  - `RemoveFromStringArr` filters out a set of items and keeps the order.

Modules:

- `Wrappers`: `Option`.
- `GoStrings`: the parts of Go's `strings` package that the file calls:
  `HasPrefix`, `HasSuffix`, `Contains`, `TrimPrefix`,
  `Replace(s, c, "", -1)` as `RemoveChar`, `TrimSpace` and `Split`. What
  each one means is proved beside it: a prefix test holds exactly for a
  `prefix + rest` decomposition, `Split` joins back to its input, and so on.
- `GoSort`: `sort.Strings` as a function returning a sorted permutation
  under the lexicographic order.
- `Matching`: `Matches`, with the Go regex engine as a parameter.
- `Admins`: `IsAdmin`, a loop with an early exit.
- `Messages`: `ParseMessage` as a method, with the direct-message loop.
  The text handling is split out as the function `ParseText`.
- `StringLists`: the three list helpers, as loops like the source.
  `DeduplicateList` keeps a map of the strings already seen;
  `RemoveFromStringArr` keeps a map of the entries found among the items;
  `IsInStringArr` is a search loop that stops at the first hit.

The configured admin list (`Config.Users.Admins`) is an explicit parameter.
The regex engine is a value `rx: Regexp`:
- `rx.compiles(p)` says whether `regexp.Compile(p)` succeeds;
- `rx.matchString(p, s)` says whether the compiled expression matches `s`.

The chat client's answers are values too:
- whether the event came from a channel, and which one: `Event.channel`;
- the event's last parameter: `Event.last`;
- the client's record of the sender, with per-channel trust:
  `Option<ClientUser>`.

Behaviour of the code worth knowing, each fact proved by the member named:

- **Interior stars.** A requirement that neither starts nor ends with `*`
  and does not start with `re:`, such as `a*b*c`, is matched literally (utils.go:118-122), so `a*b*c`
  accepts only `a*b*c` itself (`Matching.InteriorStarsOnlyIsLiteral`).
  Interior stars are deleted only in the glob modes (utils.go:103), so
  `*a*c*` looks for `ac` and refuses `abc`
  (`Matching.InteriorStarIsNoWildcard`).
- **Dots in the command.** Every `.` of the first token is deleted, not
  only the leading one (utils.go:168). So `..cmd rest` has the command
  `cmd`. Because `.cmd` is then not a prefix of the text, its text without
  command is the whole trimmed line (`Messages.DoubleDotKeepsCommandText`).
- **Split on single spaces.** The text is split on each single space
  (utils.go:165), so two spaces give an empty parameter
  (`Messages.DoubleSpaceGivesEmptyParam`).
- **Text without a prefix.** For text that does not start with `.`, the
  command is empty and `TrimPrefix` with `.` does nothing (utils.go:184), so
  the text without command is exactly the trimmed text (the contract of
  `Messages.ParseText`).

## Model

| member | source | states |
|---|---|---|
| GoStrings.HasPrefix | utils.go:91 | true exactly when the prefix is a sequence prefix of the string |
| GoStrings.HasPrefixWitness | utils.go:91 | the prefix test holds exactly when the string is the prefix followed by some rest |
| GoStrings.HasSuffix | utils.go:92 | a true result needs the suffix to fit in the string; the empty suffix and the string itself are suffixes (the full characterisation is `HasSuffixWitness`) |
| GoStrings.HasSuffixWitness | utils.go:92 | the suffix test holds exactly when the string is some text followed by the suffix |
| GoStrings.Contains | utils.go:106 | a true result needs the substring to fit in the string; a prefix is an occurrence (the full characterisation is `ContainsWitness`) |
| GoStrings.ContainsWitness | utils.go:106 | the search from the left succeeds exactly when the string is some text, the substring, then some text |
| GoStrings.TrimPrefix | utils.go:96 | with the prefix present the result is what follows it; without it the string is unchanged |
| GoStrings.RemoveChar | utils.go:103 | the result holds no occurrence of the character and is no longer than the input; a string without the character is unchanged |
| GoStrings.RemoveCharMembers | utils.go:103 | a character is in the result exactly when it is in the input and is not the deleted one |
| GoStrings.RemoveCharAppend | utils.go:168 | deleting a character distributes over concatenation |
| GoStrings.TrimSpace | utils.go:164 | the result has no white space at either end and is no longer than the input |
| GoStrings.TrimSpaceIsSlice | utils.go:164 | the trimmed text is a contiguous slice of the input, and everything cut off on either side is white space |
| GoStrings.TrimSpaceIdempotent | utils.go:184 | trimming an already trimmed text, as the text without command is, changes nothing more |
| GoStrings.TrimSpaceLeadingSpace | utils.go:184 | white space put in front of a string does not change its trimmed form |
| GoStrings.TrimSpaceOfTrimmed | utils.go:184 | trimming a string with no white space at its ends changes nothing |
| GoStrings.Split | utils.go:165 | at least one piece, no piece contains the separator, and joining the pieces with the separator gives back the input |
| GoStrings.SplitJoin | utils.go:165 | splitting the join of separator-free pieces gives back exactly those pieces |
| GoStrings.SplitCons | utils.go:165 | a separator-free word, the separator, then a rest splits into that word followed by the pieces of the rest |
| GoSort.Sort | utils.go:36 | the result is sorted lexicographically and is a permutation of the input |
| GoSort.LessEqReflexive | utils.go:36 | every string is at most itself in the order used by the sort |
| GoSort.LessEqAntisymmetric | utils.go:36 | the string order used by the sort is antisymmetric: two strings each at most the other are equal |
| GoSort.LessEqTransitive | utils.go:36 | the string order used by the sort is transitive |
| GoSort.LessEqTotal | utils.go:36 | any two strings are comparable in the order used by the sort |
| Matching.Matches | utils.go:89-125 | `re:` requirements are decided by the engine (false when the expression does not compile), taking precedence over stars; with a star at both ends the checked string must contain the star-free core, with a leading star only it must end with the core, with a trailing star only it must start with it; otherwise only the identical string matches |
| Matching.GlobWitnesses | utils.go:102-117 | the three glob modes by witnesses: the core is preceded and followed by some text, preceded by some text, or followed by some text |
| Matching.ExactWithoutMarkers | utils.go:118-122 | a requirement without stars or `re:` matches exactly the equal string |
| Matching.RegexTakesPrecedence | utils.go:93-101 | `re:` followed by any text, stars included, is decided only by the engine on that text |
| Matching.BadRegexMatchesNothing | utils.go:97-101 | an expression that does not compile matches no string |
| Matching.LoneStarMatchesAll | utils.go:102-108 | the requirement `*` accepts every string, the empty one included |
| Matching.GlobIgnoresInteriorStars | utils.go:102-117 | two glob requirements with the same end markers and the same star-free core accept the same strings |
| Matching.SuffixGlob | utils.go:109-112 | `*w`, for a star-free nonempty `w`, accepts exactly the strings ending with `w` |
| Matching.PrefixGlob | utils.go:113-116 | `w*`, for a star-free nonempty `w` that does not start with `re:`, accepts exactly the strings starting with `w` |
| Matching.ContainsGlob | utils.go:105-108 | `*w*`, for a star-free `w`, accepts exactly the strings containing `w` |
| Matching.InteriorStarGlob | utils.go:103-108 | `*a*c*`, for star-free `a` and `c`, accepts exactly the strings containing `a` immediately followed by `c`: the interior star is deleted, not a wildcard |
| Matching.SuffixExample | utils.go:109-112 | `*suffix` accepts `hello suffix` |
| Matching.ContainsExample | utils.go:105-108 | `*mid*` accepts `xxmidyy` |
| Matching.ExactIsCaseSensitive | utils.go:118-122 | `exact` refuses `Exact` |
| Matching.InteriorStarIsNoWildcard | utils.go:102-108 | `*a*c*` accepts `xacx` but refuses `abc`, because only the core `ac` is looked for |
| Matching.InteriorStarsOnlyIsLiteral | utils.go:102-122 | `a*b*c` refuses `abc` and accepts only itself: interior stars alone leave the requirement literal |
| Admins.IsAdmin | utils.go:41-59 | true exactly when some admin requirement accepts the issuer (the nick, or the ident when the nick is empty), the host or the full issuer; false for an empty list; the loop stops at the first accepting requirement, every earlier one refuses, and when false every requirement was examined |
| Admins.HostAloneSuffices | utils.go:45-47 | a requirement that accepts only the host still makes the sender an admin |
| Admins.RegexNickExample | utils.go:41-59 | with the single requirement `re:^b.b$` and an engine that matches it against `bob`, the sender with issuer `bob` is an admin |
| Messages.ParseText | utils.go:164-184 | a command is present only when the trimmed text starts with `.`, and it holds no dot and no space; with a `.`, the first piece (dots deleted) is the command and the rest of the split are the parameters; without it there is no command, no parameter, and the text without command is the trimmed text; the text without command is always trimmed |
| Messages.CommandWithArguments | utils.go:164-184 | `.cmd rest` parses to command `cmd`, the pieces of `rest` as parameters and `rest` trimmed as the text without command |
| Messages.CommandAlone | utils.go:164-184 | `.cmd` alone parses to command `cmd`, no parameters and an empty text without command |
| Messages.DoubleSpaceGivesEmptyParam | utils.go:165-171 | two spaces after the command give an empty first parameter before the pieces of the rest |
| Messages.DoubleDotKeepsCommandText | utils.go:164-184 | `..cmd rest` has command `cmd`, but its text without command is the whole trimmed line |
| Messages.ParseMessage | utils.go:128-187 | issuer is the nick or, when that is empty, the ident; full issuer is `ident@host`; host and raw message copied; channel set only for a known sender in a channel; an unknown sender is neither authenticated nor admin; in a channel, authenticated means trusted there (false when the client has no permissions there); in a direct message, authenticated means some admin requirement accepts the full issuer; admin means authenticated and some requirement accepts the sender; in a direct message the two flags agree; the text fields are those of `ParseText` |
| Messages.UntrustedChannelCommand | utils.go:142-176 | a command line such as `.ban x` from a known sender who is not trusted in the channel is neither authenticated nor admin, whatever the admin list, and carries its command and the pieces of the rest as parameters |
| Messages.DirectAdminExample | utils.go:149-176 | a direct message from a known sender whose full issuer an admin requirement accepts is authenticated and an admin, whatever its text |
| StringLists.DeduplicateList | utils.go:25-38 | the result is strictly increasing (so without repeats) and holds exactly the strings of the input |
| StringLists.StrictlySortedUnique | utils.go:25-38 | two strictly increasing lists with the same strings are equal, so the result of deduplication is determined by the input's set of strings |
| StringLists.IsInStringArr | utils.go:62-73 | true exactly when the item is an entry of the list |
| StringLists.RemoveFromStringArr | utils.go:190-208 | the result is the input with every entry among the items dropped, in the input's order; its strings are those of the list that are not among the items |
| StringLists.WithoutMembers | utils.go:202-204 | an entry survives removal exactly when it is in the list and not among the items |
| StringLists.WithoutAppend | utils.go:194-205 | removal keeps order: it distributes over concatenation |
| StringLists.WithoutNothing | utils.go:190-208 | removing no items returns the list unchanged |
| StringLists.WithoutIdempotent | utils.go:190-208 | removing the same items a second time changes nothing |

## Left out

- `BanUser`, `BanUsers`, `KickUser`, `KickUsers`, `UnbanUser`, `UnbanUsers` (utils.go:13-22, 76-85, 211-220): each is a call into the chat client per user, with no logic of its own.
- The regular-expression engine: Go's `regexp` package is not part of this model. Whether an expression compiles and what it matches are the two functions of the `Regexp` parameter.
- The chat client: `LookupUser`, `Perms.Lookup`, `IsTrusted`, `IsFromChannel`, `Params[0]` and `Last()` are answers of an external library. `IsFromChannel`, `Params[0]` and `Last()` enter as the fields of `Event`; the answer of `LookupUser` is the `Option<ClientUser>` argument of `ParseMessage` (`None` for an unknown user), and `Perms.Lookup` with `IsTrusted` is that record's map from channels to `ChannelPerms`. How the client decides trust is not modelled; trust is a boolean per channel.
- The configuration: `Config.Users.Admins` is a global loaded from a file. Here it is the `admins` parameter.
- Strings are sequences of Unicode scalar values, not UTF-8 bytes. Invalid UTF-8 and byte-level behaviour of `TrimSpace` and `Split` are not modelled.
- GoStrings.TrimSpace: the white-space set is Go's `unicode.IsSpace`. Its ASCII fast path and its handling of invalid encodings are not modelled.
- GoSort.Sort: `sort.Strings` sorts the slice in place with Go's own algorithm. The model is a pure insertion sort. Only its result matters, and a strict order determines that result.
- GoSort.Sort: the order compares scalar values one by one. It agrees with Go's byte-wise comparison of valid UTF-8.
- Go's distinction between a nil and an empty slice (`params` stays nil when there is no command) is not modelled; both are the empty sequence.
- Messages.ParseText: in the `.` case the contract does not give the text without command in closed form; it says that text is trimmed. The lemmas `CommandWithArguments`, `CommandAlone` and `DoubleDotKeepsCommandText` give it for command lines.
