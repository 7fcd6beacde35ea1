# vpn-suite: verified models of the parts that decide

vpn-suite runs WireGuard/AmneziaWG servers from a control plane: an agent on each node keeps the interface's peers equal
to the desired ones, the backend prints client configurations, and several small loops watch servers, containers and
request rates. This project models the parts of it that carry state from one step to the next or text from one function
to another, and proves what they keep over every input, every run and every pattern of failures.

Code that works by changing things is modelled by methods and classes with the same loops and branches, each proved
equal to a specification function; the theorems are about those functions. Python's `strip`, `split`, `join`, `int`,
dict order and the rest of what the text code leans on are defined in `Text`, `Numerals` and `OrderedDict`.

**Node agent** (`node-agent/agent.py`)
- `Reconciler` is `_reconcile`: the desired map, the three candidate lists, the guards, the add/update/remove loops with
  one budget, failed commands that cost nothing, and the key check that can raise among the removals. The node is a map
  of peers and a log of commands; which commands succeed is an arbitrary function.
- `ReconcilerSafety` is about one call under any failures, `ReconcilerConvergence` about sequences of cycles, and
  `WireGuardDump` about reading a dump back. `ReconcilerWants` says, of the list the control plane sends, what the
  desired map holds and what safety and convergence then mean.
- `EnvFile` is `_apply_obfuscation_full_to_env`, over the file's text; `EnvFileRuns` is about repeated calls of it, and
  `EnvFileValues` about what any line reads as and becomes.

**Configuration text** (`backend/app/core/config_builder.py`, `backend/app/core/amnezia_vpn_key.py`)
- `ConfigBuilder`, `Obfuscation` and `WgKey` are the printer, its two normalisers and its key check; `ConfigParser` is
  the reading half of `encode_awg_conf_vpn_key`; `Sanitizer` is `sanitize_awg_conf`; `Base64` and `VpnKey` pack a key.
- `ConfigAcceptance`, `ConfigRoundTrip`, `PrintedLines`, `ParseBack`, `DownloadPath`, `ObfuscationProofs`,
  `ObfuscationNormalForm`, `SanitizerProofs` and `SanitizerStability` hold the proofs that connect them.
- `ConfigProfiles`, `ConfigReading`, `ObfuscationValues`, `ObfuscationResults`, `SanitizerContent` and `EncodingFacts`
  say what each of them makes of any input, on the input's own fields, keys, lines and characters.

**Small engines**
- `DockerAlerts`, `DockerAlertsRuns` and `DockerAlertRules` (alert table), `SyncBackoff`, `RateLimit`,
  `Discovery` (target cache), `AddressAllocator` and `AddressAllocatorRuns` (tunnel addresses), `RobustZ` and
  `RobustZValues` (median and robust z-score).

**Where the code does less than one might expect.** The model follows the code; each gap has its exact condition.
- Reconciling converges from every state exactly when passes act at all and the budget is larger than the number of
  desired peers that are re-sent in every cycle: those with a preshared key, and those whose allowed-ips are not written
  the way the dump prints them (`ConvergesExactlyWhen`, `Starves`). With a dump that prints no blanks these include every
  peer that has the agent's own default "0.0.0.0/0, ::/0" (`PrintedUnspaced`).
- Rewriting the env file works exactly when text appended to it starts on a line of its own or nothing has to be
  appended (`RewriteConvergesExactlyWhen`). Otherwise the second rewrite does it, so the container restarts at most twice
  (`RestartsAtMostTwice`).
- Sanitising twice equals sanitising once exactly when some line is the [Interface] header, or the first line that does
  not vanish under cleaning does not then start with a byte order mark (`SecondPassExactlyWhen`, with a concrete input
  in `InnerMarkCounterexample`). The function's own description speaks of dropping empty AWG-only parameters; the code
  drops every empty `KEY =` line, and so does the model.
- A legacy-normalised parameter set passes the AWG 2.0 normaliser exactly when its own S1 and S2 fit the MTU
  (`LegacySetPassesExactlyWhen`); all of them pass exactly when the MTU is unset, zero or at least 212
  (`LegacyPassesExactlyWhen`).
- An open disk-pressure alert is resolved exactly when the pressure has ended and a reachable monitored host happens to
  be called "local" (`DiskAlertResolvedExactlyWhen`).
- A span of one window's length lets at most 2·limit − 1 requests of an address through, and that bound is met
  (`SpanPassesAtMost`, `BoundIsMet`).
- A counter renews exactly when the EXPIRE of its window's first request did not fail (`RenewsExactlyWhen`,
  `NoExpiryExactlyWhenLost`); a lost one refuses the address for good after `limit` requests (`LostExpiryNeverRenews`,
  with a run in `LostExpiryExample`).
- Two discovery targets share a key exactly when their job and first address agree, as long as no job holds a '|'
  (`SharedKeyExactly`); with one, different targets can share a key (`BarSharesKey`).
- Two allocations in a row in one subnet get different addresses exactly when the subnet's base is numeric
  (`SecondDiffersExactlyWhen`).

`dafny verify dfyconfig.toml` checks everything.

## Model

| member | source | states |
|---|---|---|
| Reconciler.Reconcile | node-agent/agent.py:1052-1211 | a malformed name raises before anything is done; otherwise one call leaves the node and the command log as the specified pass does, raises exactly when it does, returns exactly its own successes by kind, and saves once exactly when there were any |
| Reconciler.RunPlan | node-agent/agent.py:1120-1196 | the three loops under one shared budget equal running one list of commands: adds, then updates, then removals |
| Reconciler.BuildDesired | node-agent/agent.py:1066-1075 | the desired map in order of first mention, later entries replacing earlier ones, or an error at the first malformed key |
| ReconcilerWants.RefusedExactlyWhen | node-agent/agent.py:1066-1071 | a desired list is refused if and only if some stripped key is not 32 to 64 base64 characters or '=' |
| ReconcilerWants.WantedExactly | node-agent/agent.py:1066-1075 | a key is wanted if and only if it is the stripped key of some listed peer, and the last such peer decides: its stripped allowed-ips or "0.0.0.0/0, ::/0" when the field is empty, its keepalive or 25, and its stripped preshared key if given and not blank |
| ReconcilerWants.WantedOrder | node-agent/agent.py:1066-1075 | the wanted keys stand in the order of their first mention |
| ReconcilerWants.SnapshotExactly | node-agent/agent.py:1077 | the snapshot map holds exactly the nonempty keys of the runtime peers, each with its last entry |
| ReconcilerWants.NamesExactly | node-agent/agent.py:102-113 | a container's name is accepted at 1 to 128 characters of letters, digits, dots, dashes and underscores beginning with a letter or digit, an interface's at 1 to 32 that may also be colons |
| Reconciler.FindDrift | node-agent/agent.py:1081-1089 | the update candidates in desired order |
| Reconciler.ToUpdateMembers | node-agent/agent.py:1081-1089 | a present desired peer is an update candidate exactly when its nonblank allowed-ips differ or it has a preshared key |
| Reconciler.RemovePeers | node-agent/agent.py:1182-1196 | the removal loop with its late key check: commands sent before a malformed key stay sent |
| ReconcilerSafety.ExecuteLog | node-agent/agent.py:1156-1196 | whatever commands fail, what is sent is a prefix of the candidates, each success costs one unit of budget, failures cost nothing, and the peers are what the successful commands make of them |
| ReconcilerSafety.PassIsSafe | node-agent/agent.py:1066-1196 | for every accepted desired list, snapshot and failure pattern, also when a malformed runtime key stops the call: only undesired keys of the snapshot disappear, only desired keys change, exactly to their spec |
| ReconcilerWants.PassIsSafeOnList | node-agent/agent.py:1066-1196 | the same said of the list: only a snapshot key that no listed peer mentions goes away, and a peer that changes is set to what its last mention asks for |
| ReconcilerSafety.PassMakesProgress | node-agent/agent.py:1079-1211 | the number of missing, extra or differing peers never grows, successes stay within max(0, max_mutations), and nothing is removed before every add and update candidate was tried |
| ReconcilerConvergence.CycleMends | node-agent/agent.py:1066-1196 | one cycle over a true snapshot repairs everything or at least budget minus re-sent peers |
| ReconcilerConvergence.Converges | node-agent/agent.py:1066-1196 | however dumps print allowed-ips: with budget B, P < B desired peers re-sent in every cycle and m wrong peers, ceil(m / (B − P)) cycles leave no wrong peer, from any state and for any order of the dumps |
| ReconcilerConvergence.NothingWrong | node-agent/agent.py:1079-1089 | no wrong peer means exactly the desired keys, allowed-ips that print like every nonblank desired text, and every set preshared key in place |
| ReconcilerWants.NothingWrongOnList | node-agent/agent.py:1066-1089 | no wrong peer means exactly that the interface has the mentioned keys, each showing the allowed-ips and holding the preshared key its last mention asks for |
| ReconcilerConvergence.Starves | node-agent/agent.py:1156-1196 | when passes do not act, or re-sent peers use up the budget, one undesired peer stays for ever |
| ReconcilerConvergence.ConvergesExactlyWhen | node-agent/agent.py:1066-1196 | for every idempotent way of printing allowed-ips, every state converges if and only if passes act and the budget exceeds the number of desired peers that have a preshared key or allowed-ips not written as they are printed |
| ReconcilerConvergence.PrintedAsSet | node-agent/agent.py:1082-1089 | when dumps print texts as they were set, only preshared-key peers are re-sent |
| ReconcilerConvergence.PrintedUnspaced | node-agent/agent.py:1072-1089 | when dumps print without blanks, exactly the peers with a preshared key or a blank in their allowed-ips are re-sent, among them every peer with the agent's own default |
| WireGuardDump.ParseDump | node-agent/agent.py:647-692 | the peers of a dump's later lines, in order, with stripped nonblank keys; short lines skipped |
| WireGuardDump.PeerLineExactly | node-agent/agent.py:661-691 | a tab-separated line is a peer if and only if it has at least eight parts and the first is not blank; its key and allowed-ips are the first and fourth without the blanks around them |
| WireGuardDump.ParseOfPrintedDump | node-agent/agent.py:647-692 | parsing a dump of an interface, in any order of its peers and however allowed-ips are printed, gives the true snapshot that convergence assumes |
| EnvFile.File.Apply | node-agent/agent.py:990-1049 | returns early when the file already agrees, cannot be read or cannot be written; otherwise rewrites it for some order of missing keys and restarts once |
| EnvFile.FindKey | node-agent/agent.py:1015-1023 | testing a line against the managed keys in any order finds the text before its first '=' |
| EnvFile.ReadCurrent | node-agent/agent.py:1014-1023 | the values a file holds now, the last readable one of each key |
| EnvFileValues.ReadsBeforeComment | node-agent/agent.py:1019 | a line sets the integer between its first '=' and the first '#' behind it, blanks aside, and nothing when that is no integer |
| EnvFileValues.NumberReads | node-agent/agent.py:1019 | so a printed number between any blanks, with or without a comment behind it, reads as that number |
| EnvFileValues.CurrentExactly | node-agent/agent.py:1014-1023 | a setting has a value if and only if some line of it is readable, and then the last such line's |
| EnvFileValues.ReturnsEarlyExactlyWhen | node-agent/agent.py:1014-1025 | a call changes nothing if and only if for every wanted setting the last readable line sets the wanted value |
| EnvFileValues.WantedSettings | node-agent/agent.py:999-1009 | the wanted settings are the junk settings and the headers, and neither overrides the other |
| EnvFileValues.WantedJunk | node-agent/agent.py:999-1004 | s1, s2, jc, jmin and jmax each feed their own setting, or the defaults 213, 237, 3, 10 and 50 do |
| EnvFileValues.WantedHeaders | node-agent/agent.py:1005-1008 | h1 to h4 each feed their own setting, or 0 does |
| EnvFile.ReplaceLines | node-agent/agent.py:1026-1036 | every line of a managed key is replaced, all others kept, and the keys left over are those no line sets |
| EnvFileValues.RewrittenExactly | node-agent/agent.py:1026-1039 | every line naming a wanted setting becomes `KEY=value`, every other line stays as it is, and the settings that no line names are appended, each once |
| EnvFile.RewriteConvergesExactlyWhen | node-agent/agent.py:999-1049 | after a rewrite every managed key reads back as wanted, for any order of appending, if and only if the file is empty, ends in a line feed, ends in a managed line, or misses no key |
| EnvFile.RewriteKeepsOtherLines | node-agent/agent.py:1026-1041 | under that condition all other lines keep their text and order |
| EnvFileRuns.EndSafeAfter | node-agent/agent.py:1026-1041 | whatever the file was, its end is safe after one rewrite |
| EnvFileRuns.RestartsAtMostTwice | node-agent/agent.py:999-1049 | any number of calls with the same values restart the container at most twice, at most once when the end is safe to begin with, and never when the values agree, for any append orders and whichever calls fail to read or write |
| Sanitizer.SanitizeAwgConf | backend/app/core/amnezia_vpn_key.py:167-243 | the appends, pops, the header move and the collapsing loop compute the specified normaliser |
| Sanitizer.CollapseBlanks | backend/app/core/amnezia_vpn_key.py:229-240 | the flag loop drops every blank line that follows a blank line |
| SanitizerContent.SaysExactly | backend/app/core/amnezia_vpn_key.py:181-193 | what is left of a line: without a marker the line without trailing blanks, else the text before the first marker without the blanks around it |
| SanitizerContent.LineKeptExactly | backend/app/core/amnezia_vpn_key.py:180-209 | a line survives if and only if what it says is neither blank nor an empty setting, and survives as that, a header without the blanks around it |
| SanitizerContent.SanitizedLines | backend/app/core/amnezia_vpn_key.py:167-243 | the nonempty lines of the result are exactly what the lines of the text say, in order, with the first [Interface] moved to the front, for either kind of line end and whatever byte order marks lead |
| SanitizerProofs.SanitizeNormalises | backend/app/core/amnezia_vpn_key.py:174-243 | every nonempty input becomes the text of a normal list of lines, holding exactly the nonempty cleaned lines in order with the first [Interface] moved to the front |
| SanitizerProofs.SanitizedText | backend/app/core/amnezia_vpn_key.py:167-243 | no '#' or ';', no empty KEY = line, no two adjacent blank lines, [Interface] first if it occurs, exactly one final line feed |
| SanitizerProofs.CleanStays | backend/app/core/amnezia_vpn_key.py:180-209 | a line in clean form passes the line rules unchanged |
| SanitizerProofs.NormalTextStays | backend/app/core/amnezia_vpn_key.py:174-243 | a text in normal form is a fixed point unless it starts with a byte order mark |
| SanitizerProofs.SanitizeIdempotent | backend/app/core/amnezia_vpn_key.py:167-243 | sanitising is idempotent on every text with no byte order mark after its leading ones |
| SanitizerStability.SecondPassExactlyWhen | backend/app/core/amnezia_vpn_key.py:167-243 | sanitising twice equals sanitising once if and only if some input line is the [Interface] header or the first line that does not vanish under cleaning does not then start with a byte order mark |
| SanitizerStability.InnerMarkCounterexample | backend/app/core/amnezia_vpn_key.py:174-209 | a concrete text with an inner byte order mark on which the second pass changes the result |
| Obfuscation.Awg2Normaliser | backend/app/core/config_builder.py:285-344 | the AWG 2.0 normaliser as it runs, group by group, first error first |
| Obfuscation.LegacyNormaliser | backend/app/core/config_builder.py:243-282 | the legacy normaliser as it runs |
| ObfuscationValues.ReadIntExactly | backend/app/core/config_builder.py:213-221 | which integers a value says: a number itself, or digits with any blanks around |
| ObfuscationValues.ReadRangeExactly | backend/app/core/config_builder.py:224-240 | which ranges an H value says: a number, the text of one, or two numbers around a dash with any blanks, with the canonical text of the same bounds |
| ObfuscationResults.Awg2Exactly | backend/app/core/config_builder.py:285-344 | the AWG 2.0 normaliser returns a set if and only if all keys are known, each number, text and header of the set is exactly the one its own value says (positive numbers, stripped texts, canonical ranges, all else omitted), and the set is in normal form |
| ObfuscationResults.LegacyExactly | backend/app/core/config_builder.py:243-282 | the legacy normaliser returns a set if and only if every key is its own or an idle H key, each key of the set is exactly what its value says, and the numbers are within the legacy bounds |
| Obfuscation.RangesApart | backend/app/core/config_builder.py:336-339 | the nested loops accept exactly the pairwise disjoint ranges |
| ObfuscationProofs.Awg2Idempotent | backend/app/core/config_builder.py:285-344 | normalising a normalised set again with the same MTU returns it unchanged |
| ObfuscationProofs.LegacyIdempotent | backend/app/core/config_builder.py:243-282 | the same for the legacy normaliser |
| ObfuscationProofs.HRangesDisjoint | backend/app/core/config_builder.py:318-339 | no number lies in two H ranges of a result, and none above 2^32 − 1 lies in one |
| ObfuscationProofs.Awg2Numbers | backend/app/core/config_builder.py:291-343 | the numbers of a result are positive and within the profile's and the MTU's bounds, S1 + 56 ≠ S2, Jmin ≤ Jmax |
| ObfuscationNormalForm.UnchangedExactlyWhenNormal | backend/app/core/config_builder.py:285-344 | a parameter set passes the AWG 2.0 normaliser unchanged if and only if it is in a normal form described without the normaliser: known keys, positive numbers in bounds, trimmed nonempty texts, canonical H texts, disjoint ranges |
| ObfuscationNormalForm.ResultsAreNormalForms | backend/app/core/config_builder.py:285-344 | the normaliser's possible results are exactly the normal forms |
| ObfuscationProofs.LegacyPassesAwg2 | backend/app/core/config_builder.py:243-344 | a legacy result passes the AWG 2.0 normaliser unchanged when the MTU is unset, zero or at least 212 |
| ObfuscationProofs.LegacyPassesExactlyWhen | backend/app/core/config_builder.py:303-309 | and for no other MTU do all legacy results pass |
| ObfuscationNormalForm.LegacySetPassesExactlyWhen | backend/app/core/config_builder.py:302-309 | a single legacy result passes unchanged if and only if its own S1 and S2 are within the MTU's bounds |
| WgKey.AcceptedExactlyWhen | backend/app/core/config_builder.py:113-130 | a key is accepted if and only if, stripped, it is 43 base64 characters with at most one trailing '=', and is returned stripped |
| EncodingFacts.KeyCharacters | backend/app/core/config_builder.py:113-130 | the characters of a key are the letters, the digits, '+' and '/' |
| EncodingFacts.AlphabetExactly | backend/app/core/amnezia_vpn_key.py:44 | the characters of the two encodings are those of the tables in sections 4 and 5 of RFC 4648 |
| EncodingFacts.GroupIsNumber | backend/app/core/amnezia_vpn_key.py:44 | three bytes and their four characters' values are the same 24-bit number |
| WgKey.GeneratedKeysAccepted | backend/app/core/config_builder.py:347-350 | every key the generator can return is accepted as it is |
| VpnKey.KeyReadsBack | backend/app/core/amnezia_vpn_key.py:32-45 | unpadded base64url (section 5 of RFC 4648) and three big-endian words: decoding recovers the magic, both lengths and the exact block, and packing fails only when a length does not fit |
| EncodingFacts.KeyStarts | backend/app/core/amnezia_vpn_key.py:32-45 | every connection key starts with "vpn://B8AB", the first three bytes of the magic number |
| ConfigBuilder.BuildConfig | backend/app/core/config_builder.py:371-462 | the builder as it runs: all field errors gathered, or the first late error, or the text of the specified lines |
| ConfigProfiles.ParamsExactly | backend/app/core/config_builder.py:424-440 | per profile, on the input's own fields: none for the universal profile or an empty dictionary, the legacy rules for the legacy profile, and the AWG 2.0 rules for the other two with the given MTU, or 1200 for the mobile profile when it is unset or not positive |
| ConfigProfiles.BuiltExactlyWhen | backend/app/core/config_builder.py:371-462 | an input is built if and only if its parts are acceptable, its own profile's rules keep its parameters, and a preshared key, if given, is a key |
| ConfigProfiles.BuiltText | backend/app/core/config_builder.py:417-462 | the built text line by line, in terms of the input's fields |
| ConfigAcceptance.ErrorsNameBadParts | backend/app/core/config_builder.py:382-415 | the gathered errors name exactly the parts of the input that are not acceptable, each once and in order |
| ConfigAcceptance.EndpointExactlyWhen | backend/app/core/config_builder.py:133-173 | an endpoint is accepted if and only if it reads as [v6]:port or host:port with an IPv4 host or hostname and a port in 1..65535 |
| ConfigAcceptance.HostnameExactly | backend/app/core/config_builder.py:465-472 | a hostname is at most 253 characters of dotted labels of 1 to 63 letters, digits and inner dashes, with at most one final dot; a label may end in a line feed |
| ConfigAcceptance.AllowedExactlyWhen | backend/app/core/config_builder.py:189-200 | an allowed-ips list is accepted if and only if every item between its commas is a network |
| ConfigAcceptance.BuildsExactlyWhen | backend/app/core/config_builder.py:371-459 | an input is accepted if and only if all its parts are acceptable, its parameters normalise under the profile, and a preshared key, if given, is a key |
| ConfigBuilder.InterfaceLines | backend/app/core/config_builder.py:417-446 | the [Interface] section with the default name servers, the MTU rule and the emitted obfuscation keys in order |
| ConfigParser.ReadFields | backend/app/core/amnezia_vpn_key.py:48-120 | the reading half as it runs: sections, then the fields, endpoint split and obfuscation keys taken from them |
| ConfigReading.SettingReads | backend/app/core/amnezia_vpn_key.py:50-52 | a name, '=' or ':', and a value set the name to the stripped value in the open section, once |
| ConfigReading.CommentIgnored | backend/app/core/amnezia_vpn_key.py:50-52 | blank lines and comments say nothing, however they are indented |
| ConfigReading.NoColonIsHost | backend/app/core/amnezia_vpn_key.py:102-114 | an endpoint without a colon is all host, with port 51820 |
| ConfigReading.ColonSplits | backend/app/core/amnezia_vpn_key.py:102-114 | else host and port stand around the last colon; a blank port is 51820 and one that is no integer is 0 |
| ConfigReading.ExtrasExactly | backend/app/core/amnezia_vpn_key.py:71-94 | the obfuscation keys read are exactly the listed ones with a value that is not blank, stripped |
| ConfigReading.ItemsExactly | backend/app/core/amnezia_vpn_key.py:116 | the items of a list are its nonblank parts, stripped and in order |
| ConfigProfiles.Ipv4Exactly | backend/app/core/amnezia_vpn_key.py:65-69 | a name server is kept if and only if it is four groups of one to three digits between dots |
| ConfigProfiles.ServerExactly | backend/app/core/amnezia_vpn_key.py:65-69 | the n-th name server is the n-th part between commas that, stripped, is an IPv4 address, and nothing beyond the last |
| ConfigRoundTrip.ReadTwoSections | backend/app/core/amnezia_vpn_key.py:50-58 | any two printed sections read back as exactly their keys and values |
| ParseBack.ReadBuilt | backend/app/core/config_builder.py:417-462 | the text of every accepted input without line breaks reads back as its two sections |
| ParseBack.EndpointReadsBack | backend/app/core/config_builder.py:133-173 | an accepted endpoint is split at the same colon by the builder and the reader: bracketed IPv6 host with its brackets, else the host, and the same port number |
| ParseBack.HostnameTrimmed | backend/app/core/config_builder.py:465-472 | an accepted hostname without a line feed has nothing to strip, so it reads back exactly |
| ParseBack.ParsingUndoesPrinting | backend/app/core/amnezia_vpn_key.py:48-120 | for every accepted input without line breaks: keys, address, first two IPv4 name servers, MTU, host, port, allowed-ips list, preshared key, keepalive, and exactly the emitted obfuscation keys with their values |
| ConfigProfiles.FieldsOfInput | backend/app/core/amnezia_vpn_key.py:48-120 | the same on the input's own fields: exactly the profile's parameters, the MTU, and the first two IPv4 name servers of the given or the default list |
| DownloadPath.BuiltTextStays | backend/app/api/public_download.py:57-58 | a text built from nonblank name servers and fields without '#', ';' or line break is returned by the download unchanged |
| DownloadPath.DownloadUnchangedExactlyWhen | backend/app/api/public_download.py:57-58 | for accepted input without line breaks the download changes nothing if and only if the text holds no comment marker and the name servers are not blank |
| DockerAlerts.AlertTable.EvaluateOnce | backend/app/services/docker_alert_rule_engine.py:31-178 | one evaluation leaves the specified table and returns the number of distinct firing fingerprints |
| DockerAlerts.AlertTable.Gather | backend/app/services/docker_alert_rule_engine.py:33-131 | the firing rules of reachable hosts in order, then the disk rule, and the hosts they cover |
| DockerAlerts.AlertTable.Apply | backend/app/services/docker_alert_rule_engine.py:136-175 | open alerts of covered hosts are refreshed by their last firing rule or resolved, missing ones added, every other row untouched |
| DockerAlerts.AlertTable.CleanUp | backend/app/services/docker_alert_rule_engine.py:180-188 | exactly the expired rows go, the others keep their order |
| DockerAlertsRuns.PrintInjective | backend/app/services/docker_alert_rule_engine.py:22-24 | rule, host and container can be told apart by the fingerprint's text when rule and host hold no colon and the container id is not empty or "-" |
| DockerAlertsRuns.ActiveFacts | backend/app/services/docker_alert_rule_engine.py:33-131 | with distinct hosts and distinct containers per host, firing rules name pairwise distinct targets on covered hosts |
| DockerAlertRules.ContainerFiresExactly | backend/app/services/docker_alert_rule_engine.py:33-115 | a container's alert fires if and only if its host is reachable and the rule's condition holds, a warning only below the critical threshold, a missing measurement counting as zero |
| DockerAlertRules.DiskFiresExactly | backend/app/services/docker_alert_rule_engine.py:117-130 | the disk alert fires if and only if 100·used is at least the threshold times the total size (nothing counts as used when the total is 0), and covers its pseudo host then |
| DockerAlertRules.ContainerDetails | backend/app/services/docker_alert_rule_engine.py:33-115 | every firing of a container carries its rule's severity, the container's name and the measured values |
| DockerAlertRules.DiskDetails | backend/app/services/docker_alert_rule_engine.py:117-130 | a firing without a container is the disk warning of the pseudo host "local" |
| DockerAlertRules.OpenAlertsTell | backend/app/services/docker_alert_rule_engine.py:144-169 | after an evaluation every open alert of a covered host tells what its firing rule says now |
| DockerAlertRules.ResolvedNow | backend/app/services/docker_alert_rule_engine.py:171-175 | an alert that an evaluation resolves is resolved at that moment and otherwise keeps what it told |
| DockerAlertRules.CountIsFirings | backend/app/services/docker_alert_rule_engine.py:176-178 | the count returned is the number of firing rules |
| DockerAlertsRuns.StepOpen | backend/app/services/docker_alert_rule_engine.py:132-178 | an evaluation keeps one open alert per fingerprint, leaves alerts of uncovered hosts unchanged, makes those of covered hosts equal to the firing rules, and keeps first_seen_at of an alert that stays open |
| DockerAlertsRuns.CleanedMembers | backend/app/services/docker_alert_rule_engine.py:180-188 | a row survives cleanup if and only if it is open or was not resolved before the threshold |
| DockerAlertsRuns.OnlyExpiredRowsGo | backend/app/services/docker_alert_rule_engine.py:180-188 | an evaluation deletes a resolved row if and only if it was resolved longer ago than max(60, ttl) seconds, and never an open one |
| DockerAlertsRuns.OpenExactlyWhenFiredLast | backend/app/services/docker_alert_rule_engine.py:132-178 | over any run from an empty table an alert is open if and only if the last evaluation that covered its host saw its rule fire |
| DockerAlertsRuns.OpenSinceStreakStart | backend/app/services/docker_alert_rule_engine.py:132-188 | and its first_seen_at is the time of the first evaluation of the latest unbroken streak, counting only evaluations that covered its host |
| DockerAlertsRuns.AfterOk | backend/alembic/versions/019_docker_alerts.py:49-52 | the unique index on open fingerprints holds after every run |
| DockerAlertRules.DiskAlertResolvedExactlyWhen | backend/app/services/docker_alert_rule_engine.py:117-175 | an evaluation resolves an open disk alert if and only if the pressure has ended and a reachable monitored host is called "local" |
| SyncBackoff.Backoff.ShouldSkip | backend/app/core/server_sync_loop.py:63-69 | true exactly before the stored retry time |
| SyncBackoff.Backoff.RecordFailure | backend/app/core/server_sync_loop.py:72-81 | count one up and retry after min(60·2^(count−1), cap) |
| SyncBackoff.Backoff.Start | backend/app/core/server_sync_loop.py:102-109 | a sync begins unless the server is still waiting |
| SyncBackoff.Backoff.Complete | backend/app/core/server_sync_loop.py:126-148 | success forgets the entry, failure extends it |
| SyncBackoff.StoredIsHistory | backend/app/core/server_sync_loop.py:72-86 | over any interleaving of servers the entry is the number of failures since the last success and the last failure's time plus its wait |
| SyncBackoff.FailuresApart | backend/app/core/server_sync_loop.py:63-86 | with a clock that never goes back, consecutive failures of a server are apart by at least the wait after the earlier one |
| SyncBackoff.NFailuresSpan | backend/app/core/server_sync_loop.py:63-86 | n failures in a row, wherever the row starts, span at least the sum of the first n − 1 waits |
| SyncBackoff.TotalBelowCap | backend/app/core/server_sync_loop.py:76-77 | below the cap n waits sum to 60·(2^n − 1) |
| SyncBackoff.TotalAtCap | backend/app/core/server_sync_loop.py:76-77 | from the cap on each further failure adds exactly the cap |
| SyncBackoff.SkippedExactlyWhileWaiting | backend/app/core/server_sync_loop.py:63-69 | a server is passed over if and only if the wait after its last failure is not over |
| RateLimit.Limiter.Dispatch | backend/app/core/rate_limit.py:84-123 | one request against the counter: exempt, failing store, counted and passed, or counted and refused |
| RateLimit.UncountedExactly | backend/app/core/rate_limit.py:84-96 | a request passes and leaves every counter alone when limiting is off, when it is outside the API or exempt, or when INCR fails; any other counts for its own address and no other |
| RateLimit.CounterIsWindow | backend/app/core/rate_limit.py:93-96 | whatever the store did, the counter is the number of the address's counted requests in its latest window, and expires when that ends, or never if its first request could not set the expiry |
| RateLimit.WindowPassesFirst | backend/app/core/rate_limit.py:93-97 | each window passes exactly its first API_LIMIT counted requests, with no assumption on the store |
| RateLimit.SpanPassesAtMost | backend/app/core/rate_limit.py:84-110 | any half-open span of API_WINDOW seconds lets at most 2·API_LIMIT − 1 counted requests of one address through, also when the store fails now and then |
| RateLimit.BoundIsMet | backend/app/core/rate_limit.py:84-110 | for every limit and window some run of requests with a healthy store reaches that bound |
| RateLimit.NoExpiryExactlyWhenLost | backend/app/core/rate_limit.py:93-96 | a counter without expiry exists if and only if some request opened a window and its EXPIRE failed |
| RateLimit.RenewsExactlyWhen | backend/app/core/rate_limit.py:93-96 | a request that comes after the latest window's time starts a new count if and only if the EXPIRE of that window's first request did not fail |
| RateLimit.LostExpiryNeverRenews | backend/app/core/rate_limit.py:93-97 | after a lost expiry the window passes API_LIMIT requests in all and then none |
| RateLimit.LostExpiryExample | backend/app/core/rate_limit.py:93-97 | a concrete run in which one lost expiry refuses the address at any later time |
| Discovery.Cache.RunOnce | ops/discovery/run_loop.py:157-173 | load, note every target found, write the fresh ones in state order |
| Discovery.SharedKeyExactly | ops/discovery/run_loop.py:33-36 | two targets share a key if and only if their job ("unknown" when missing) and first address agree, for jobs without a '|' |
| Discovery.BarSharesKey | ops/discovery/run_loop.py:33-36 | with a '|' in a job two different targets can share a key |
| Discovery.WritesLatestSightings | ops/discovery/run_loop.py:157-173 | after any runs, a target is written if and only if it is the latest sighting of its key in the history since the state file was last unreadable, the last one in its run, and within the time to live |
| Discovery.WritesEachKeyOnce | ops/discovery/run_loop.py:33-36 | no key is written twice |
| Discovery.RecentKeysStay | ops/discovery/run_loop.py:164-171 | with a clock that never goes back, a key sighted within the time to live is in the output |
| AddressAllocator.AllocateNextAddress | backend/app/core/config_builder.py:495-506 | the lowest host of 2..254 that is not used, or an error exactly when all are |
| AddressAllocator.Registry.AllocateAddressForDevice | backend/app/services/address_allocator.py:48-83 | the loop over active devices of the chosen base and the two texts it returns |
| AddressAllocatorRuns.ChosenIsBase | backend/app/services/address_allocator.py:17-32 | every base an allocation uses has three dotted groups |
| AddressAllocatorRuns.ChosenBaseIs | backend/app/services/address_allocator.py:17-32 | a dotted subnet with a readable prefix length is allocated in by its first three groups, subnet_address before amnezia_subnet, and an unreadable length falls back to 10.8.1 |
| AddressAllocatorRuns.OctetOfAddress | backend/app/services/address_allocator.py:35-45 | a stored address's host is read back if and only if its base is numeric |
| AddressAllocatorRuns.OctetExactly | backend/app/services/address_allocator.py:35-45 | any stored text holds a host if and only if, stripped, it reads as three groups of digits and that number, whatever follows |
| AddressAllocatorRuns.TakesLowestFree | backend/app/services/address_allocator.py:68-83 | in a numeric subnet an allocation takes the lowest host no active device holds and fails exactly when all are held |
| AddressAllocatorRuns.AddressesStayDistinct | backend/app/services/address_allocator.py:48-83 | over any run of allocations and revocations, active devices with numeric bases have pairwise distinct addresses |
| AddressAllocatorRuns.SucceedsExactlyWhen | backend/app/core/config_builder.py:495-506 | after any run, an allocation in a numeric subnet succeeds if and only if fewer than 253 of its devices are active |
| AddressAllocatorRuns.NotNumericAlwaysTwo | backend/app/services/address_allocator.py:35-45 | a base that is not numeric gives every device host 2 |
| AddressAllocatorRuns.SecondDiffersExactlyWhen | backend/app/services/address_allocator.py:48-83 | two allocations in a row of one subnet differ if and only if its base is numeric |
| AddressAllocatorRuns.ConfigAddress | backend/app/services/address_allocator.py:81-83 | the client's config gets the same host with the subnet's own prefix length |
| RobustZ.MedianOfMultiset | backend/app/services/abuse_detection_service.py:15-23 | the median depends only on the multiset of samples |
| RobustZ.HalfOnEachSide | backend/app/services/abuse_detection_service.py:15-23 | at least half the samples lie on each side of it |
| RobustZValues.MedianExactly | backend/app/services/abuse_detection_service.py:15-23 | the median is the middle sample in order, or the mean of the two middle ones, or 0 without samples |
| RobustZValues.ScoreFromMedian | backend/app/services/abuse_detection_service.py:26-40 | when 1.4826 times the median distance exceeds 1e-9 the score is max(0, how many of it the value lies above the median) |
| RobustZValues.ScoreFromMean | backend/app/services/abuse_detection_service.py:26-40 | otherwise it is measured from the mean in standard deviations, or in ones when that is at most 1e-9 |
| RobustZValues.NoSamples | backend/app/services/abuse_detection_service.py:26-28 | without samples the score is 0 |
| RobustZ.MonotoneInValue | backend/app/services/abuse_detection_service.py:26-40 | the score is never negative and never falls when the value grows |
| RobustZ.ZeroUpToMedian | backend/app/services/abuse_detection_service.py:26-40 | with the median's scale, exactly the values up to the median score zero, so at least half the samples do |
| RobustZ.ShiftInvariant | backend/app/services/abuse_detection_service.py:26-40 | shifting value and samples together leaves the score unchanged, whichever scale is used |
| RobustZ.ScaleInvariant | backend/app/services/abuse_detection_service.py:26-40 | stretching both leaves it unchanged while both sides use the median's scale |

## Left out

- ReconcilerConvergence.Converges: assumes commands that succeed; `set` taking its allowed-ips away from other peers is not modelled.
- ReconcilerConvergence.ConvergesExactlyWhen: keepalive is never compared by the code, so nothing is claimed about it; a preshared key that is no longer wanted stays, because `set` without one keeps the old.
- ReconcilerSafety.PassIsSafe: a command that fails is taken to change nothing; one that times out and takes effect anyway is not modelled, nor is `set` taking allowed-ips away from another peer.
- Reconciler.Reconcile: metrics and logs are left out, and so is what becomes of the save command.
- ReconcilerConvergence.CycleMends: assumes a snapshot taken just before the call; the action handler's call in `main` reuses the snapshot of the call before it, which the safety theorems cover (they allow any snapshot) and convergence does not.
- WireGuardDump.ParseDump: splitting the dump at line ends is taken as given, and the counters and handshake times of a peer are not kept.
- EnvFile.File.Apply: translation of carriage returns on reading, a write that stops part-way and a restart that fails are left out; values are decimal integers in ASCII digits.
- ConfigParser.ReadFields: continuation lines (reported as an error here), the DEFAULT section and the file's encoding are left out; the JSON around the fields and its compression are not part of this model.
- ConfigBuilder.BuildConfig: the `ipaddress` checks are arbitrary predicates on text; error messages are constructors, not texts.
- VpnKey.KeyReadsBack: the compressed block is an arbitrary byte string; that decompressing it gives the JSON back is zlib's promise.
- WgKey.GeneratedKeysAccepted: the random bytes are a parameter; X25519 key pairs are not part of this model.
- DockerAlertsRuns.OpenSinceStreakStart: requires host ids without a colon and container ids other than "" and "-"; collisions of the digest and two evaluators at once are left out.
- DockerAlerts.AlertTable.EvaluateOnce: an insert that would break the unique index raises in the database; here it is a second row, which `StepOpen` shows cannot happen with distinct hosts and containers.
- SyncBackoff.NFailuresSpan: the loop's choice of due servers, its jitter and its limit on concurrent syncs are left out; any order of starts and ends with at most one sync per server is covered.
- RateLimit.SpanPassesAtMost: requests that pass because INCR failed are not counted; a counter is gone from the instant its expiry is reached, and INCR with its EXPIRE is one step; the exemption list is a flag on the request, and the login limiters with the same scheme are not repeated.
- Discovery.Cache.RunOnce: a state file that is readable but holds damaged entries is not modelled.
- Discovery.WritesLatestSightings: how targets are found and JSON encoding are left out.
- AddressAllocatorRuns.AddressesStayDistinct: allocations and revocations happen one after another, devices get addresses only from the allocator, addresses are compared as text, and the wildcards of SQL's LIKE in an odd base are not interpreted.
- RobustZ.ShiftInvariant: exact reals; rounding of floats is left out, and the square root is an arbitrary function.
- Digits are the ASCII ones throughout; Python's regex class and `isdigit` accept more.
- Health scores, revenue sums, telemetry, bots, the web frontend and the database schemas: little branching state.
- Handshake gate, TTL cache, idempotency keys, one-time tokens and the action queue: each comes down to a short per-item argument.
