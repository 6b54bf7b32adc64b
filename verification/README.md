# Model of pgsense

pgsense follows the logical replication stream of PostgreSQL databases, scans every inserted and
updated text value with regular expressions, built-in detectors and scripts, and sends findings to
alert channels. This project models the parts whose correctness cannot be read off one function
body, and proves what they promise. `dafny verify dfyconfig.toml` checks the whole project.

| part | modules |
|---|---|
| checksum and grammar validators | `Luhn`, `Iban`, `Email`, `Ssn` |
| detectors over UTF-8 text | `CreditCard`, `IbanDetector`, `EmailDetector`, `Ssn`, `Phone`, `Detectors` |
| rule engine, scanner, row extraction | `Engine`, `Scanner`, `Events` |
| slot identifiers | `PipelineId` |
| deduplication and dispatch | `Dedup`, `Dispatcher`, `ConcurrentDispatch` |
| Slack batching and retries | `Slack` |
| unit life cycle, main loop, shutdown, return | `Supervisor`, `UnitLife`, `Shutdown`, `Drain` |
| shared | `Utf8`, `Option`, `Clock`, `Powers`, `Findings` |

How it is built:

- A Rust string is a byte sequence that satisfies `Utf8.ValidUtf8`, the UTF8-octets syntax of
  section 4 of RFC 3629. Every `&s[a..b]` is `Utf8.Slice`, whose precondition is exactly that the
  slice does not panic, so a verified scanner never slices inside a character and never indexes
  out of range. Machine integers are types with bounds, so a verified loop does not overflow.
- Each imperative function is a method proved against a specification function or a predicate;
  the lemmas then say what that specification is worth: a standard's formula, a grammar, an
  "if and only if" over all spans of the text, an unpruned history, a naive evaluation.
- What several tasks do at once is a step system: one step for each critical section, atomic
  store, channel operation or branch choice. Theorems about it hold for every list of steps, and
  a step that is not enabled changes nothing.
- The phone-number library, the regular-expression library, the script engine and the glob
  patterns are parameters. The only assumption made about them is `Engine.SetFaithful`.

## Model

| member | source | states |
|---|---|---|
| Utf8.Slice | src/rules/validators.rs:104-105 | a slice between character boundaries of well-formed text does not panic and is well-formed again; every slice of the five detectors and of the email and SSN checks goes through it |
| Utf8.CutValid | src/rules/detectors/email.rs:56 | cutting well-formed UTF-8 at a character boundary leaves two well-formed halves |
| Utf8.ValidExact | src/rules/validators.rs:104-105 | a byte string is well formed if and only if it is the encoding of a sequence of scalar values (RFC 3629 section 3), so the slicing results cover every Rust string |
| Utf8.BoundaryExact | src/rules/validators.rs:104-105 | the character boundaries are exactly the positions at which both halves are well formed |
| Utf8.ClassesSpelledOut | src/rules/detectors/credit_card.rs:28-38 | the character classes that the detectors test, as lists of characters |
| Luhn.Check | src/rules/validators.rs:50-76 | accepts exactly the strings whose 13 to 19 digits have an Annex B sum (ISO/IEC 7812-1) divisible by 10, whatever stands between the digits |
| Luhn.AcceptsExact | src/rules/validators.rs:68-75 | acceptance equals that of a second sum, which adds the digit sums of the doubled numbers in pairs from the right |
| Luhn.TableHoldsCrossSums | src/rules/validators.rs:1-2 | the table holds, for each digit, the digit sum of its double |
| Luhn.PublishedNumber | src/rules/validators.rs:50-76 | 4111 1111 1111 111 is completed by the digit 1 and no other |
| Luhn.ZerosAccepted | src/rules/validators.rs:56-66 | of strings of zeros exactly those of 13 to 19 are accepted |
| Luhn.SumFromRight | src/rules/validators.rs:68-73 | the table-driven loop from the right computes the Annex B sum, within 16 bits |
| Luhn.SubstitutionDetected | src/rules/validators.rs:49-76 | every single-digit change of an accepted number is rejected |
| Luhn.TranspositionDetected | src/rules/validators.rs:49-76 | swapping two different neighbouring digits is accepted if and only if they are 0 and 9 |
| Luhn.CheckDigitUnique | src/rules/validators.rs:49-76 | every prefix of 12 to 18 digits has exactly one accepting last digit |
| Iban.Check | src/rules/validators.rs:189-211 | the streaming 32-bit remainder never overflows and decides whether the unbounded integer spelled by the rearranged, letter-expanded string is 1 modulo 97 |
| Iban.NextCharacter | src/rules/validators.rs:200-204 | the next digit or the next letter at a place raises the spelled number by exactly the power of ten of the expanded width behind it |
| Iban.FirstCharacters | src/rules/validators.rs:200-204 | the letter A spells ten and the digit 0 nothing |
| Iban.NeverAccepted | src/rules/validators.rs:190-207 | a lower-case letter anywhere or fewer than fifteen characters always lead to rejection |
| Iban.SeparatorsIrrelevant | src/rules/validators.rs:187-190 | only the alphanumeric characters count |
| Iban.SubstitutionDetected | src/rules/validators.rs:187-211 | replacing a digit by a digit or a capital by a capital in an accepted string is always detected |
| Iban.TranspositionDetected | src/rules/validators.rs:195-210 | swapping different neighbours is undetected if and only if they are B and 1, M and 2, or X and 3; at positions 3 and 4, which the rearrangement moves to opposite ends, if and only if a stated number, made of the two values and the width between them, is a multiple of 97 |
| Iban.EndsSameKind | src/rules/validators.rs:195-210 | at positions 3 and 4, two digits or two capitals swap undetected if and only if the expanded width behind the first rearranged character is a multiple of 96 |
| Iban.TenOrder | src/rules/validators.rs:199-208 | ten has order 96 modulo 97, which decides that case |
| Iban.SameKindSwapDetected | src/rules/validators.rs:189-211 | up to 48 characters, above every registered length, swapping two digits or two capitals is detected wherever they stand |
| Iban.CheckPairUnique | src/rules/validators.rs:187-211 | for every country code and account part exactly one check pair in 02..98 validates: 98 minus the remainder with 00 |
| IbanDetector.WalkTakesGroups | src/rules/detectors/iban.rs:31-46 | the walk consumes exactly a grouped stretch with the expected number of characters |
| IbanDetector.Scan | src/rules/detectors/iban.rs:5-16 | terminates without a panic and returns the texts of the spans that `IbanDetector.ReportsExact` describes, for any registry of country lengths |
| IbanDetector.Registered | src/rules/detectors/iban.rs:55-152 | the registry; every length in it is one that the check accepts and at most 34 |
| IbanDetector.ReportsExact | src/rules/detectors/iban.rs:5-53 | a span is reported if and only if it is a grouped string of its country's length, with clean boundaries and valid check digits |
| IbanDetector.ReportsAscend | src/rules/detectors/iban.rs:7-15 | reports come in increasing order of their starts |
| IbanDetector.GroupingIrrelevant | src/rules/detectors/iban.rs:31-52 | a valid compact IBAN is found however single spaces and dashes are spread over it after the first four characters |
| CreditCard.Scan | src/rules/detectors/credit_card.rs:6-51 | terminates without a panic and returns the texts of the spans that `CreditCard.ReportsExact` describes |
| CreditCard.WalkStopsBefore | src/rules/detectors/credit_card.rs:47 | the jump of the outer index never passes the start of a maximal run |
| CreditCard.ReportsSound | src/rules/detectors/credit_card.rs:12-48 | every report is a joined run of 13 to 19 digits with clean boundaries and a valid sum; reports are disjoint and increasing |
| CreditCard.ReportsExact | src/rules/detectors/credit_card.rs:12-48 | for every text and span: it is reported if and only if it is reportable (a joined run of 13 to 19 digits, clean boundaries, valid sum), begins where a walk starts, and ends at nineteen digits or at the end of the run |
| CreditCard.GroupingIrrelevant | src/rules/detectors/credit_card.rs:18-45 | a valid card of 13 to 19 digits that stands cut off on both sides is reported however single spaces and dashes are spread between its digits |
| CreditCard.RunReportedWhole | src/rules/detectors/credit_card.rs:12-48 | every maximal run is reported whole if and only if it has 13 to 19 digits, clean boundaries and a valid sum; with at most 19 digits and a clean left boundary nothing else that touches it is reported |
| CreditCard.GluedCardMissed | src/rules/detectors/credit_card.rs:27-47 | a reportable span at whose end a walk ends is missed if and only if joiners alone glue it to an earlier walk that fewer than 19 digits have filled |
| CreditCard.TwoCardsMissed | src/rules/detectors/credit_card.rs:27-47 | of two valid cards with only a space or a dash between them, the first of 13 to 18 digits, nothing is reported, although the second is reportable |
| CreditCard.CardAfterWordFound | src/rules/detectors/credit_card.rs:18-21 | glued to a digit that follows a letter, a card is found |
| Email.Check | src/rules/validators.rs:98-122 | the loops, with every slice safe, accept exactly what `Email.GrammarExact` says |
| Email.JoinOfSplit | src/rules/validators.rs:125 | joining the parts of a split gives the string back, and no part holds a dot |
| Email.SplitOfJoin | src/rules/validators.rs:125 | splitting a join of dotless parts gives the parts back |
| Email.PiecesNonEmpty | src/rules/validators.rs:110-115 | the three dot tests hold exactly if no dot-separated piece is empty |
| Email.GrammarExact | src/rules/validators.rs:94-153 | a string is accepted if and only if it is a Dot-string of at most 64 bytes (RFC 5321 sections 4.1.2 and 4.5.3.1.1), an at sign, and at least two labels of at most 63 bytes (RFC 1035 section 2.3.4), 253 bytes in total, ending in a label of two letters or more |
| Email.LocalChars | src/rules/validators.rs:4-43 | the table of local characters holds the atext of RFC 5322 section 3.2.3 and the dot |
| Email.OneAtom | src/rules/validators.rs:107-118 | a local part without dots is accepted exactly for 1 to 64 characters of that list |
| Email.OneLabel | src/rules/validators.rs:125-136 | a label before `cc` is accepted exactly for 1 to 63 letters, digits and hyphens, without a hyphen first or last |
| Email.OneTopLabel | src/rules/validators.rs:144-152 | a top label after `a` is accepted exactly for 2 to 63 letters |
| Email.TwoLabelsNeeded | src/rules/validators.rs:141-143 | a single label is never a domain |
| Email.TotalLimit | src/rules/validators.rs:120-122 | a domain of four long labels is accepted exactly up to 253 bytes |
| EmailDetector.Scan | src/rules/detectors/email.rs:6-16 | terminates without a panic and returns the texts of the spans that `EmailDetector.ReportsExact` describes |
| EmailDetector.ReportsExact | src/rules/detectors/email.rs:6-57 | a span is reported if and only if around some at sign it takes all local characters up to 64 and a stretch of domain characters less its trailing dots and hyphens, and is accepted |
| EmailDetector.ReportsRise | src/rules/detectors/email.rs:7-15 | starts and ends of the reports both increase strictly, so none is reported twice |
| EmailDetector.ReportsSound | src/rules/detectors/email.rs:18-57 | every report is accepted, no word character follows it, and a local character precedes it only if its local part was cut at 64 |
| EmailDetector.AddressFound | src/rules/detectors/email.rs:23-49 | an accepted address with a clean right boundary is found if and only if no local character precedes it or its local part has 64 bytes |
| EmailDetector.AddressBeforePunctuation | src/rules/detectors/email.rs:51-54 | an accepted address is found in front of any dots and hyphens as well |
| EmailDetector.CutInsideWord | src/rules/detectors/email.rs:23-28 | with 65 letters before `@b.cc` the address that lacks the first one is reported, inside the word |
| Ssn.Check | src/rules/validators.rs:158-185 | accepts what the shape, three integer parses and the ranges accept |
| Ssn.DigitsIffNoPlus | src/rules/validators.rs:172-174 | an accepted string has digit fields if and only if none of the three begins with a plus sign |
| Ssn.PlusAccepted | src/rules/validators.rs:155-174 | a string with a plus sign in a field is accepted, against the documented format |
| Ssn.Scan | src/rules/detectors/ssn.rs:5-46 | returns the texts of the windows that `Ssn.ReportsExact` describes |
| Ssn.ReportsExact | src/rules/detectors/ssn.rs:15-43 | exactly the windows with the digit shape, clean boundaries and assigned ranges are reported |
| Ssn.RangesSpelledOut | src/rules/validators.rs:164-182 | a text of the right shape is accepted unless its area is 000 or 666 or begins with a nine, its group is 00 or its serial 0000 |
| Ssn.ReportedShape | src/rules/detectors/ssn.rs:25-37 | every report consists of three, two and four digits with twice the same dash, space or dot between |
| Ssn.ReportsAscend | src/rules/detectors/ssn.rs:15 | windows are reported in order |
| Ssn.ReportsApart | src/rules/detectors/ssn.rs:15-43 | two reported windows start at least 12 bytes apart |
| Phone.Scan | src/rules/detectors/phone.rs:4-30 | terminates without a panic, for any validity predicate, and returns the texts of the spans that `Phone.ReportsExact` describes |
| Phone.WalkUnique | src/rules/detectors/phone.rs:39-49 | the walk finds the one stretch that starts and ends on a digit, keeps to the limit, and cannot go on |
| Phone.ParseExact | src/rules/detectors/phone.rs:14-19 | a position yields a span if and only if it is a "+" or "00" number of 7 to 15 digits or a ten-digit number with an interior separator, boundaries are clean and the predicate holds |
| Phone.ReportsSound | src/rules/detectors/phone.rs:9-29 | all reports have that form, are disjoint and increasing |
| Phone.ReportsExact | src/rules/detectors/phone.rs:9-29 | exactly the spans of that form are reported that do not begin inside another report |
| Phone.PlusNumber | src/rules/detectors/phone.rs:34-57 | a plus sign and digits on their own are reported exactly for 7 to 15 valid digits |
| Phone.ThreeGroups | src/rules/detectors/phone.rs:61-100 | three groups of three, three and four digits are reported exactly if a space, dash, dot or closing parenthesis separates them, the first two begin with 2 to 9, and the number is valid |
| Engine.New | src/rules/engine.rs:97-174 | the rules, the pattern list and the three index tables are those of the configuration, and the first failing rule decides the error |
| Engine.CompilesExactly | src/rules/engine.rs:105-161 | the rules compile if and only if each has a scope without contradiction, the field of its type, valid for its library, and valid allowlist patterns |
| Engine.TablesPartition | src/rules/engine.rs:120-145 | the tables are increasing and list each rule exactly under its own type, hence are disjoint and cover all rules |
| Engine.PatternsOfTable | src/rules/engine.rs:125-127 | the k-th pattern of the set is that of the k-th rule of the regex table |
| Engine.ListedIsPhase | src/rules/engine.rs:228-275 | going through a table is going through all rules and skipping those of other types |
| Engine.NextMatched | src/rules/engine.rs:191-193 | jumping to the next pattern that the set matches skips only rules that find nothing |
| Engine.RegexPhase | src/rules/engine.rs:189-226 | the set-driven phase returns what every regex rule finds on its own, in configuration order |
| Engine.ScanValue | src/rules/engine.rs:176-277 | the three phases equal the naive evaluation rule by rule, profiled or not, and hold exactly the matches that `Engine.ResultsExact` describes; profiling only counts durations |
| Engine.ResultsExact | src/rules/engine.rs:186-277 | in terms of the configuration: a match is returned if and only if some rule has it as its first regex match that passes its validator, as a report of its detector, or as a result of its script, and neither a value nor a pattern of its allowlist covers it |
| Engine.ResultsOrdered | src/rules/engine.rs:189-274 | every match can be traced to a configured rule so that regex rules come before builtin rules before script rules, and each kind in configuration order |
| Engine.UnsuppressedInOrder | src/rules/engine.rs:234-242 | the texts of one rule keep their order, and none that the allowlist does not cover is missing |
| Engine.KeepCompiled | src/rules/engine.rs:105-161 | compiling the kept rules gives the kept compiled rules |
| Engine.ScopeCommutes | src/rules/engine.rs:97-277 | filtering the matches by any predicate on rules equals the matches of the engine built from the kept rules only |
| Engine.OutOfScope | src/rules/config.rs:114-131 | what is out of scope: a name that a non-empty include list does not match, or that an exclude list matches |
| Scanner.Scan | src/scanner.rs:69-119 | the findings are those of all scannable columns, with primary keys stripped, and exactly those that `Scanner.FindingsExact` describes |
| Scanner.FindingsExact | src/scanner.rs:72-116 | a finding is returned if and only if a rule in scope finds its text in a scanned column of the event, and it carries the database, schema, table, column and LSN of the event, the id, description, category, severity and channels of the rule, and the mask and hash of the text |
| Scanner.StripKeys | src/scanner.rs:107-116 | the second pass changes nothing but the primary keys, from which it removes exactly the matched columns |
| Scanner.KeysStripped | src/scanner.rs:107-118 | no finding's keys name a column matched by any finding of the event, and all other pairs survive in order |
| Scanner.RetainedInOrder | src/scanner.rs:112-114 | the surviving pairs are all the unmatched ones, in their order |
| Scanner.ScopeByCompilation | src/scanner.rs:82-87 | for every event and column, scanning with all rules and filtering by scope finds what an engine of the in-scope rules finds |
| Events.FromUpdate | src/events.rs:168-200 | builds the event from a full or a partial row, with the columns and keys that `Events.PartialAligned` compares |
| Events.EventExact | src/events.rs:131-148 | every cell gives a column with its name and type, a value exactly if the type is scanned and the cell prints, and a key pair exactly if it prints and its column is part of the key |
| Events.PartialAligned | src/events.rs:168-188 | a partial row yields the columns of the full row with the missing positions removed, and the same keys if and only if no missing position holds a key value |
| PipelineId.Compute | src/pipeline/config.rs:29-44 | the loop is the fold of the FNV-1a round over host, slash and name |
| PipelineId.PublishedHash | src/pipeline/config.rs:36-43 | the fold gives the published 64-bit FNV-1a hash of the letter a |
| PipelineId.StepBijective | src/pipeline/config.rs:40-41 | each round is a bijection of the 64-bit hash, undone from both sides |
| PipelineId.StepInjective | src/pipeline/config.rs:40-41 | each round is injective in the byte |
| PipelineId.OneByteNeverCollides | src/pipeline/config.rs:33-44 | ids of equal length that differ in exactly one byte never share a slot id |
| PipelineId.DatabaseIdExact | src/pipeline/config.rs:28-31 | two ids are equal if and only if host and name are, or one host is the other, a slash and `x`, and the other name is `x`, a slash and the first name |
| PipelineId.DatabaseIdInjective | src/pipeline/config.rs:29-31 | in particular, for hosts without a slash the id determines host and name |
| Dedup.StepAgrees | src/alerts/dedup.rs:30-52 | a decision on the pruned cache equals "no alert for this key within the window" on the full history |
| Dedup.WindowEdge | src/alerts/dedup.rs:41-51 | a key last alerted at t passes again exactly from t plus the window on, and a new key at once |
| Findings.SameKey | src/alerts/dedup.rs:54-63 | keys agree exactly if database, schema, table, column, rule and value do |
| Dedup.PruningUnobservable | src/alerts/dedup.rs:30-52 | over every run with a monotone clock the decisions are those of the unpruned history |
| Dedup.StepSpaced | src/alerts/dedup.rs:41-51 | alerts for one key stay at least a window apart |
| Dedup.SizeBound | src/alerts/dedup.rs:33-36 | the cache never exceeds 10 001 entries or one more than the live keys, whichever is larger |
| Dedup.BoundedExactly | src/alerts/dedup.rs:30-52 | from any cache within ten thousand entries, a run keeps it there after every call if and only if the keys of cache and run together are no more, however old they are |
| Dedup.ThresholdExceeded | src/alerts/dedup.rs:10 | 10 001 different values seen at one moment exceed ten thousand entries from the empty cache |
| Dedup.Deduplicator.ShouldAlert | src/alerts/dedup.rs:30-52 | the object keeps agreement with the history and spacing, and passes a finding exactly if its key is not live |
| Dispatcher.Dispatcher.Deliver | src/alerts/dispatcher.rs:131-162 | each routed channel is asked once, in spite of failures elsewhere, and no other |
| Dispatcher.RoutedExact | src/alerts/dispatcher.rs:132-136 | a channel is sent exactly the findings that name it or name none |
| Dispatcher.CountedExact | src/alerts/dispatcher.rs:141-158 | a send counts as ok if it succeeds and as failed otherwise, and is recorded either way |
| Dispatcher.Dispatcher.Dispatch | src/alerts/dispatcher.rs:105-166 | every channel has received exactly the passed findings routed to it, in order, and counts each as ok or failed |
| ConcurrentDispatch.BeginKeeps | src/alerts/dispatcher.rs:114-125 | with several tasks, the decision under the mutex is that of the full history of all tasks |
| ConcurrentDispatch.RunKeeps | src/alerts/dispatcher.rs:113-162 | for every interleaving, each channel has received from each task the routed findings among those offered so far |
| ConcurrentDispatch.AllDelivered | src/alerts/dispatcher.rs:105-166 | once a task is idle, every channel has received its passed findings routed there, each once and in order; alerts for a key are a window apart over all tasks |
| Slack.BufferState.Push | src/alerts/slack.rs:127-136 | a send appends the finding, sets the timestamp only if none is set, and reports whether the batch is full |
| Slack.BufferState.Drain | src/alerts/slack.rs:144-159 | a flush takes the whole buffer and resets it, or takes nothing and leaves it as it is; it takes if forced and non-empty, or if the oldest finding has waited for the window |
| Slack.RunKeeps | src/alerts/slack.rs:127-163 | for every interleaving of senders, timer and forced flushes: pushed findings equal drained batches followed by the buffer, in order; the timestamp is set exactly when something is buffered, and is that of the oldest; no batch is empty or longer than `batch_size - 1` plus the senders |
| Slack.FreshAfterTick | src/alerts/slack.rs:149-152 | after a tick of the timer nothing in the buffer has waited for the window |
| Slack.LongestWait | src/alerts/slack.rs:76-87 | as long as ticks are at most d apart, no finding stays in the buffer for the window and d together, also up to the moment it is drained |
| Slack.WaitAttained | src/alerts/slack.rs:76-87 | that wait is attained for every d |
| Slack.WindowExact | src/alerts/slack.rs:76-87 | the window bounds every wait of every run if and only if ticks are at most one unit of time apart (none, for an empty window), or nobody sends |
| Slack.BoundAttained | src/alerts/slack.rs:127-142 | a batch of that greatest length is reachable for every batch size and every number of senders; with size 0 it equals the senders |
| Slack.BatchSizeExact | src/alerts/slack.rs:127-142 | `batch_size` bounds every batch of every run if and only if at most one sender uses the channel, and none if the size is 0 |
| Slack.BuildPayload | src/alerts/slack.rs:226-280 | a message for n >= 2 findings has exactly 3n blocks, each in its place, under the highest severity; one for a single finding has 4; the count is `BlockCount` |
| Slack.HighestExact | src/alerts/slack.rs:231-235 | the header shows the gravest severity among the findings, critical first and info last |
| Slack.BlocksExact | src/alerts/slack.rs:226-280 | every message of every run stays within 50 blocks if and only if `batch_size - 1` (or 0) plus the senders is at most 16, or there is no sender |
| Slack.SendBatch | src/alerts/slack.rs:163-224 | for every retry limit, at most `max_retries + 1` requests; the first answer other than a rate limit decides, unless overflow is checked and the 65th request is still refused, which panics; the time waited is the sum of the delays after the refused requests |
| Slack.DelayHonoured | src/alerts/slack.rs:182-199 | the wait after a refused request is the longer of what Slack demands and the doubled back-off |
| Supervisor.NoLostExit | src/commands/scan.rs:96-106 | while the loop runs with at least one unit, if all units are terminal then an exit signal is queued or about to be sent |
| Supervisor.SignallingDiscipline | src/pipeline/supervisor/mod.rs:49 | a unit signals at most once, after its terminal status is stored; the exit channel always has room; the gauge is up only while the status is Running |
| UnitLife.RunFits | src/pipeline/supervisor/database_unit.rs:92-145 | over every run, what happens to a unit follows the protocol: it waits at the start and after each successful reconnect, and reconnects after each failed wait and at no other time |
| UnitLife.StatusExact | src/pipeline/supervisor/database_unit.rs:94-122 | a unit is Failed only after a failed reconnect that followed a failed wait, and Exited only after its pipeline ended by itself or it was told to stop |
| UnitLife.Recovers | src/pipeline/supervisor/database_unit.rs:104-115 | from every reachable state with a failed wait, a successful reconnect brings the unit back to waiting, running, gauge up, with a pipeline, and changes nothing else |
| UnitLife.GivesUp | src/pipeline/supervisor/database_unit.rs:116-120 | a failed reconnect leaves it Failed, gauge down, about to send its signal |
| UnitLife.EndsWell | src/pipeline/supervisor/database_unit.rs:96-102 | a pipeline that ends by itself leaves it Exited, gauge down, about to send its signal |
| UnitLife.StopsWhenTold | src/pipeline/supervisor/database_unit.rs:124-141 | so does a shutdown signal that is seen |
| Supervisor.BreakMeansTerminal | src/commands/scan.rs:103-105 | the loop breaks only with every unit terminal, and they remain so |
| Supervisor.ResultExact | src/commands/scan.rs:82-135 | `run` returns an error if and only if it never entered its loop, whatever becomes of the units |
| Shutdown.AllFailedReturnsOk | src/commands/scan.rs:96-135 | with any number of databases, a run exists in which every unit fails for good and `run` returns without an error |
| Supervisor.NoUnitsNoBreak | src/commands/scan.rs:96-129 | without a unit no signal comes and the loop never breaks; loading the configuration rejects an empty list before that (src/config/mod.rs:105) |
| Supervisor.SignalReachesPipeline | src/pipeline/runner.rs:155-174 | the shutdown branch finds the pipeline if and only if it wins before the first poll of the wait |
| Shutdown.SignalLost | src/pipeline/runner.rs:155-174 | a run exists in which the shutdown branch wins after the pipeline was taken, and its signal goes nowhere |
| Shutdown.EveryRunBreaks | src/commands/scan.rs:96-129 | once all units are terminal, every interleaving of the program's own steps breaks after a bounded number of them, and none gets stuck before |
| Shutdown.ToldRemains | src/pipeline/supervisor/database_unit.rs:121-131 | a shutdown signal is never lost, not even while the unit reconnects |
| Shutdown.EveryShutdownBreaks | src/commands/scan.rs:96-129 | once shutdown is under way, every interleaving of the program's own steps reaches the break within `Work(s) + 1` steps and six for each pipeline that fails meanwhile, and none gets stuck before |
| Shutdown.ShutdownNeverHangs | src/commands/scan.rs:124-127 | the same from every reachable state in which Ctrl-C arrives, with a bound that is quadratic in the units and linear in the failures |
| Shutdown.ShutdownCompletes | src/pipeline/supervisor/mod.rs:78-88 | from every reachable state of the loop, Ctrl-C can be followed to the break by the program's own steps, whatever reconnects under way bring |
| Drain.RunKeeps | src/pipeline/supervisor/database_unit.rs:65-80 | for every interleaving of pipelines, scan tasks, timer and main loop: what was handed to the scan tasks is sent, suppressed, or in a queue, a task, the buffer or a delivery |
| Drain.PushProjects | src/alerts/slack.rs:127-139 | a push of a scan task is the push of the Slack channel, and leaves it to flush exactly if the buffer is full |
| Drain.FlushProjects | src/alerts/slack.rs:144-161 | its flush is the flush of the Slack channel, and what it takes is what it then delivers |
| Drain.TickProjects | src/alerts/slack.rs:76-84 | a tick of the timer is the timed flush of the Slack channel |
| Drain.FinalProjects | src/alerts/dispatcher.rs:168-174 | the final flush is its forced flush |
| Drain.EventsLost | src/commands/scan.rs:124-135 | with any number of databases, a run exists in which a finding is handed over, Ctrl-C comes, all pipelines shut down in order, and `run` returns without having sent it |
| Drain.DrainedExactly | src/commands/scan.rs:131 | from every reachable state between break and final flush: every continuation to the return leaves nothing behind in a queue, a scan task or the buffer if and only if the scan tasks have pushed everything |
| Drain.DeliveredExactly | src/commands/scan.rs:131-135 | from the same states: every continuation sends all that was handed over if and only if all of it is sent or suppressed already, as the timer can take the buffer first and is then cut off |
| Drain.FlushExactly | src/alerts/dispatcher.rs:168-174 | from the same states, if only the final flush takes the buffer: all is sent if and only if the scan tasks have pushed everything and no other delivery is under way |

## Where the code differs from its documentation

- `src/pipeline/runner.rs:168-169` says that `signal_shutdown` lets the running `wait()` return.
  `wait()` takes the pipeline out of the runner when first polled, and the shutdown branch drops
  that call, so the signal finds no pipeline (`Shutdown.SignalLost`; the exact condition is
  `Supervisor.SignalReachesPipeline`).
- `docs/src/cli/scan.md` promises a non-zero exit code when all pipelines exit with an error. `run`
  then returns without one (`Shutdown.AllFailedReturnsOk`); it returns an error exactly if it never
  enters its loop (`Supervisor.ResultExact`).
- `docs/src/cli/scan.md` promises to drain in-flight events on exit. The scan loops are detached
  tasks that nothing waits for, and end with the program (`Drain.EventsLost`; the exact conditions
  are `Drain.DrainedExactly`, `Drain.DeliveredExactly` and `Drain.FlushExactly`).
- `docs/src/alerts/deduplication.md` says that the cache is bounded at 10 000 entries. Live entries
  are never dropped (`Dedup.ThresholdExceeded`); it is bounded exactly under the condition of
  `Dedup.BoundedExactly`.
- `docs/src/alerts/slack.md` calls `batch_size` the findings per message. Several databases share
  the channel, so a message can hold more (`Slack.BoundAttained`; it is a bound exactly under the
  condition of `Slack.BatchSizeExact`).
- `docs/src/alerts/slack.md` calls `batch_window_ms` the longest wait. A partial batch waits for the
  next tick of the timer task as well (`Slack.WaitAttained`, `Slack.LongestWait`; the window alone
  is a bound exactly under the condition of `Slack.WindowExact`). That task awaits
  its own deliveries, back-off included, so ticks can be much further apart than a second.
- `src/rules/validators.rs:155-156` names a digits-only SSN format. The integer parse also accepts
  a leading plus sign (`Ssn.PlusAccepted`); the detector checks the digits itself.
- `src/rules/detectors/credit_card.rs:3-5` promises every sequence of 13 to 19 digits. What an
  earlier walk runs into is missed, such as the second of two cards separated by one space
  (`CreditCard.TwoCardsMissed`; the exact condition is `CreditCard.ReportsExact`).
- `src/rules/detectors/email.rs:3-5` promises word boundaries. On the left there is none when the
  local part was cut at 64 bytes (`EmailDetector.CutInsideWord`; the exact condition is
  `EmailDetector.AddressFound`).

## Left out

- Utf8.Slice: a panic is modelled as a precondition that fails, so that verified callers cannot panic; panics of other kinds, such as a poisoned mutex, are not modelled.
- Engine.New: a missing pattern, detector or script panics in the program; here it is the error `MissingField`.
- Engine.ScanValue: the regular-expression and script libraries are parameters; it is assumed only that the set matches a pattern exactly if its regex finds a match, and lists matches in increasing order.
- Events.PartialAligned: printing of cells is abstract, since only its absence for null and binary cells matters.
- Dedup.Deduplicator.ShouldAlert: the key is the tuple of identifying fields; collisions of its 64-bit hash are not modelled.
- Dispatcher.Dispatcher.Dispatch: takes one dispatch at a time; several at once are the subject of `ConcurrentDispatch`.
- Slack.BuildPayload: blocks carry the finding and the count, not the rendered text and colours.
- Slack.SendBatch: takes the answers to the requests and the build's overflow checking as parameters, and does not model the HTTP exchange.
- Supervisor.NoLostExit: relaxed atomic accesses are taken as sequentially consistent, and a task that panics is not modelled.
- Shutdown.EveryShutdownBreaks: counts pipeline failures instead of bounding them, since `select!` may keep preferring a pipeline that keeps failing and reconnecting; that a scheduled task runs at all is assumed.
- The `phone` validator itself: its library is a predicate, and the phone scanner is proved for every predicate.
- Drain.RunKeeps: a batch is given by the findings that it will yield, deduplication and routing past Slack by a free choice, and a request counts as sent when it has come to its end, whatever the answer; pipelines hand over only while their unit is running, so what replication workers of a dropped pipeline may still hand over is not covered.
- Reload of rules: a step of the main loop that does not touch the units; that one scanner is used for a whole batch is immediate.
- Channels other than Slack, channel names, masking, pattern matching of globs, configuration, secrets, metrics, logging, health server, benchmarks and the command line: thin wrappers or formatting.
- `from_insert` and the remaining event kinds: the same extraction over a full row.
