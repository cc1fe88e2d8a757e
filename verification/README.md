# sdk-ops: the allowlist firewall, and four small cores beside it

sdk-ops hardens and operates small servers over SSH. Its firewall layer is a compiler and a state machine. A declarative
policy (profile, SSH ports, admin addresses, provider ranges, a scope per exposed port) becomes ordered nftables rules.
Afterwards several scripts change the live table and the files beside it: expose, unexpose, reinstall, the daily updater, the
five-minute watchdog, peer exposure, and a commit that races a 30-second rollback timer. This project models those
scripts and proves what holds over every sequence of them.

| module | what it holds |
|---|---|
| `Text`, `Cidr`, `Ipv6` | decimals, fields, split/join; prefixes as addresses and as texts of both families |
| `Nft` | rules, packets, first-match evaluation with one `jump`, operations on chains |
| `Registry`, `Policy` | registry lines and scopes; the configuration, its rendering and the declarative policy |
| `State`, `Refreshing`, `Watchdog`, `Peering` | the node as a value and what each script does to it |
| `Minimum`, `Listing` | what the updater's minimum counts; how nft lists a source address |
| `Firewall` | the same scripts as methods of a class that updates chains, sets and files in place |
| `Runs`, `Theorems`, `Rollback`, `Cooldown` | all sequences of those scripts: invariant, agreement, commit protocol, notifications |
| `Access`, `Operators`, `Exposures`, `Repair` | who gets in after a refresh, an installation, an exposure; what a watchdog run restores and reports; all said with texts, addresses and the words of the command line |
| `SshPorts`, `Admins`, `Resolver`, `Graph` | reading open ports back from a printed chain; the admin list; include resolution, also over an abstract graph |
| `Releases`, `Swap`, `ImageRef` | version links, swap sizing, image references |

A packet has loopback and established flags, a source family and source bits, a protocol and a destination port. A rule
matches on those fields, on a set, or on a source text; a chain is a sequence of rules. The input and forward chains may
jump to `exposed`; falling off their end means drop. Loading a file adds rules and elements to what is there; flushing a
table removes its rules and leaves its sets. `Firewall.NodeFirewall` holds the mutable fields; each method's contract
equates its new state with a function on the `Node` value, and `Runs.After` folds those functions over a sequence of
operations, so a lemma about `After` is a lemma about any sequence of method calls.

`Runs.Invariant` relates a node to a `View`: the registry entries, how far the `exposed` chain follows them (`Exact`: rule for
rule; `Agreeing`: each port has one or more copies of its block; `Lossy`: agreeing, but some ports lost all their rules;
`Unknown`: no such account), how the snapshot's `exposed` chain follows them and, when an installation describes the input
chain, its configuration and the peers added since. When the rollback timer loads the snapshot on top, the two accounts are
joined: a port lost in one chain is made up for by the other, and two agreeing chains agree together. `DoLose` stands for an outside event that deletes all rules of
some ports.

## Where the code does something other than its text says

Each of these is stated exactly, for all inputs, and where useful with a concrete input.

- Self-heal joins the element file with blanks, while an nft element list needs commas. An emptied admin set comes back if
  and only if its file holds at most one address (`Refreshing.HealRestoresAtMostOne`, `Refreshing.TwoAdminsStayLost`,
  `Watchdog.WatchRestoresAdminSet`, `Admins.ParsedAdminsHeal`).
- The peer exposure says it is idempotent per port, protocol and address (hardening/peer.go:25-26). Its deletion looks for the
  address as written in what nft lists, and nft drops a full-length mask and clears host bits. So an IPv4 call finds its own
  earlier rule if and only if it names a network without host bits (`Peering.ReplacesItself`); hosts, the fleet's own case,
  delete nothing and accumulate (`Peering.HostPeersAccumulate`). Where it does find the rule, the protocol is ignored
  (`Peering.OtherProtocolDisplaces`). `Theorems.StepPeerRule` gives the exact steps that keep a peer's rule.
- `CurrentSSHPorts` reads every number at the head of a word of every `dport` line. Peer rules therefore add their port and
  the leading number of their source address (`SshPorts.PeersChangeAnswer`): with a kubelet peer, a Normal reinstall
  opens 10250 to everyone (`SshPorts.KubeletBecomesPublic`).
- The rollback adds the snapshot to the live table instead of restoring it. The `exposed` chain then says what the registry
  of that moment says where its port has rules left, else what the registry said before (`Rollback.RollbackSays`); who gets
  back in follows exactly (`Rollback.RollbackRestoresAccess`), as does the policy for every packet: the union of the earlier and
  the later one (`Rollback.RollbackIsUnion`). Packets to ports that are not exposed anew in the window all get
  back in (`Rollback.RollbackRestoresUntouched`); a port open to everyone before and exposed for admins in the window
  does not (`Rollback.ReexposedIsLost`).
- `nextVersion` answers 1 when the listing call fails, so version 1 may be overwritten (`Releases.DeployWritesFresh`,
  `Releases.FailedListingOverwrites`). A rollback accepts any name of a directory.
  `Releases.WhereRollbackLeads` says where each leads: `current` stays on a version if and only if the request is the default,
  a version, or the `previous` link (`Releases.RollbackStaysOnVersion`); the name `current` makes the link point at itself, and
  `.` makes it the service directory (`Releases.DotIsAccepted`). Right after a deploy, `previous` is an alias of
  `current`, so the default rollback changes nothing (`Releases.RollbackAfterDeployStays`).
- An untagged image reference whose registry host has a port is read wrongly (`ImageRef.UntaggedRoundTrip`,
  `ImageRef.RegistryPortSwallowsRepository`).
- A bare IPv4-mapped IPv6 address is refused by `ValidateCIDR` unless it was normalised first (`Cidr.CheckBeforeNormalizing`).
- The minimum of four provider prefixes counts texts. The IPv4 count is the number of networks if and only if no network is
  written in two ways, with other host bits, or bare and with /32 (`Minimum.MinimumCountsTexts`,
  `Minimum.RepeatsWithoutHostBits`); two addresses in two spellings pass (`Minimum.TwoAddressesPass`). For either family the
  count is exact if and only if each text denotes addresses and no two the same (`Minimum.CountIsExact`); the IPv6 pattern lets
  through texts that denote nothing, and four of those pass as well (`Minimum.NoAddressesPass`).

## Model

| member | source | states |
|---|---|---|
| Policy.CompiledPolicy | hardening/allowlist.go:244-293 | for any set contents and any exposed chain that agrees with the registry entries, first-match evaluation of the rendered input chain with peers behind it, and of the forward chain, decides every packet as the declarative policy does |
| Policy.InputImplementsPolicy | hardening/allowlist.go:251-273 | the input half over an arbitrary exposed chain: loopback or established, else the exposed chain's verdict, else icmp, open web, SSH in Normal, admin and allow sets, peers, else drop |
| Policy.ForwardImplementsPolicy | hardening/allowlist.go:275-289 | the forward half over an arbitrary exposed chain: established, else the exposed chain, else open web, private ranges, admin and allow sets, else drop |
| Access.StrangerStaysOut | hardening/allowlist.go:251-289 | plain traffic from an address that no element of any set denotes, to a port that neither the web switch nor the SSH list opens, is refused by the rendered input chain unless an exposure accepts it, and is forwarded only from a private network |
| Access.LanIsPrivate | hardening/allowlist.go:282-284 | those networks are, bit for bit, 10/8, 172.16/12 and 192.168/16 |
| Policy.BlockImplementsEntry | hardening/allowlist_remote.go:442-481 | the rules compiled for one exposure give every packet the verdict its scope promises: admin and ips accept the listed sources and drop the rest of the port, global accepts, traefik says nothing |
| Policy.AgreeingChainImplements | hardening/allowlist_remote.go:537-547 | whenever each port holds copies of the block of its last registry entry, in any interleaving of ports, the chain's verdict on a packet is that of the last entry for the packet's port |
| Policy.ExactChainAgrees | hardening/allowlist_remote.go:537-547 | the concatenation of the last-for-their-port blocks is such a chain |
| Policy.NormalExtendsStrict | hardening/allowlist.go:261-267 | Normal lets a packet in if and only if Strict does or it is TCP to an SSH port that no exposure drops; so Strict never accepts more |
| Policy.OpenWebExtends | hardening/allowlist.go:258-281 | opening the web ports gains, in input and in forward, exactly TCP 80 and 443 that no exposure drops, and loses nothing |
| Policy.NormalizePorts | hardening/allowlist.go:316-327 | the loop with its seen-map, then the sort, computes the specified port list |
| Policy.NormalPortsMeaning | hardening/allowlist.go:316-327 | that list is strictly ascending and holds exactly the valid port numbers of the input |
| Policy.AscendingUnique | hardening/allowlist.go:316-327 | hence two inputs with the same valid ports normalise to the same list |
| Nft.RunConcat | hardening/allowlist.go:251-273 | the second half of a chain decides exactly the packets the first half leaves undecided |
| Nft.InsertAccept | hardening/allowlist.go:258-267 | inserting an accept rule at any place loses no packet and gains exactly the matching packets that reach it |
| Nft.AcceptReached | hardening/peer.go:57 | in a chain without drops, a matching accept rule takes effect at any position unless the jump drops the packet |
| Nft.CalleeVerdictSuffices | hardening/allowlist.go:255-278 | two exposed chains with the same verdict on a packet are interchangeable behind the jump |
| Nft.OnlyOwnPort | hardening/allowlist_remote.go:540-543 | in a chain of single-port rules a packet is decided by the rules of its own port alone |
| Nft.RepeatRuns | hardening/state_watch.go:135-158 | a block appended several times decides as a single copy |
| Registry.BuildExposeRules | hardening/allowlist_remote.go:442-481 | the two accumulating loops yield the v4-then-v6 rules and the IP field, or the error of the first bad address, the empty list or the unknown scope |
| Registry.NormalIsFixed | hardening/allowlist_remote.go:457-477 | the stored address list normalises to itself and all its members are valid, normalised addresses |
| Registry.CheckedIsValid | hardening/allowlist_remote.go:509-522 | an exposure that passes every check yields a well-formed entry: a port in range and not a peer port, normalised addresses |
| Registry.LineFields | hardening/allowlist_remote.go:547 | a written line splits into port, protocol, scope, the address list only for scope ips, and the stamp |
| Registry.LineTexts | hardening/allowlist_remote.go:547 | the written lines word for word, also where no addresses leave two blanks side by side |
| Registry.LineReadsBack | hardening/allowlist_remote.go:609-622 | what reapply reads from a written line; without addresses the stamp lands in the address field |
| Registry.LineRoundTrip | hardening/allowlist_remote.go:609-622 | reading a written line and checking it again yields the same entry with the new stamp, for every scope, even where the stamp was read as an address |
| Registry.RenderIsFixedPoint | hardening/allowlist_remote.go:547-622 | re-rendering a re-read line gives the line itself |
| Registry.SedDropsKey | hardening/allowlist_remote.go:546 | the dedup sed removes exactly the lines with the same port, protocol and scope |
| Registry.SedDropsPort | hardening/allowlist_remote.go:581 | the unexpose sed removes exactly the lines of that port |
| Registry.GrepBoundary | hardening/allowlist_remote.go:540 | the boundary in the handle pattern selects a rule printed for port n when looking for n and for no other port |
| Registry.GrepFindsLast | hardening/state_watch.go:136 | the watchdog's grep and tail find the line of the last entry for a port |
| Registry.ChainRecord | hardening/allowlist_remote.go:540-547 | recording an entry changes the registry's chain by deleting the port's rules and appending the new block |
| Registry.ChainDropPort | hardening/allowlist_remote.go:577-581 | dropping a port's lines changes the registry's chain by deleting the port's rules |
| Registry.ChainPerPort | hardening/allowlist_remote.go:540-547 | the registry's chain holds, per port, exactly the block of the port's last entry |
| Registry.RecordKeeps | hardening/allowlist_remote.go:546-547 | recording keeps entries well-formed and (port, protocol, scope) keys unique |
| Firewall.Sed | hardening/allowlist_remote.go:546 | the line filter removes exactly the lines with the prefix and keeps the order of the rest |
| Firewall.DeleteHandles | hardening/allowlist_remote.go:540-543 | deleting by handle leaves the other ports' rules in their order |
| Firewall.NodeFirewall.RunExposeScript | hardening/allowlist_remote.go:524-550 | refuses without the admin set; else restores the jumps, replaces the port's rules, replaces the key's line, and touches nothing else |
| Firewall.NodeFirewall.AllowlistExposePort | hardening/allowlist_remote.go:509-558 | all checks in order; on any error the node is unchanged |
| Exposures.ExposeSucceeds | hardening/allowlist_remote.go:509-528 | an exposure succeeds if and only if the port is in range and none of 8472, 2379, 2380, 10250, the protocol is tcp or udp, the scope one of the four, an ips list non-empty and valid, and the admin set exists |
| Exposures.RefusalTells | hardening/allowlist_remote.go:509-528 | otherwise the error names the first check that fails, and among addresses the first bad one |
| Exposures.ExposedVerdict | hardening/allowlist_remote.go:540-544 | whatever the exposed chain held, on its port the new entry alone speaks |
| Exposures.ExposureTakesEffect | hardening/allowlist_remote.go:529-544 | from any table without drops in its base chains, also one without the jump: what the entry accepts is let in and forwarded; where there was no jump, what it drops is refused and what it is silent on is treated as before |
| Exposures.ExposedByName | hardening/allowlist_remote.go:442-481 | in the words of the command line: whoever may pass under admin, global or ips, on that port and protocol, is let in and forwarded, and on a table without a jump nobody else is |
| Firewall.NodeFirewall.AllowlistUnexposePort | hardening/allowlist_remote.go:574-591 | the port leaves chain and registry together |
| Firewall.NodeFirewall.ReapplyPortRegistry | hardening/allowlist_remote.go:604-624 | the loop over the file as read at the start, while each call rewrites it, equals the fold of single-line reapplications |
| Firewall.NodeFirewall.RunUpdater | hardening/allowlist_remote.go:88-151 | one updater run: heal, classify, count, replace both sets or leave both |
| Firewall.NodeFirewall.InstallAllowlist | hardening/allowlist_remote.go:168-272 | snapshot and files first; then refused, undone, unseeded or complete, with the exact state each leaves |
| Operators.InstalledSets | hardening/allowlist.go:248-307 | after every installation that passed the check and the load, the admin sets hold exactly what they held and the addresses given, each in its own set, and the provider sets what was fetched or, if that was too little, what they held |
| Operators.InstalledIs | hardening/allowlist_remote.go:205-270 | and input and forward are exactly the rendered chains |
| Operators.OperatorGetsIn | hardening/allowlist.go:249-288 | whatever the node was, every source denoted by an admin address is let in and forwarded after the installation, unless an exposure drops the packet |
| Operators.TypedOperatorGetsIn | cmd/sdk-ops/infra.go:521-540 | the same from the command line: every source denoted by a part of the comma-separated text |
| Operators.StagesMean | hardening/allowlist_remote.go:204-267 | which installation ends how, by the check, the load and four fetched texts; one that ends early leaves chains, sets, registry, flag and timer as they were; one that loads is armed with the flag cleared |
| Firewall.NodeFirewall.CommitAllowlist | hardening/allowlist_remote.go:276-282 | the flag is set and the timer stopped |
| Firewall.NodeFirewall.RollbackTimer | hardening/allowlist_remote.go:216 | loads the snapshot on top if pending and uncommitted, else nothing |
| Firewall.NodeFirewall.InstallAndVerifyAllowlist | cmd/sdk-ops/infra.go:804-821 | commits if and only if the installation completed and a new connection succeeded |
| Firewall.NodeFirewall.ExposePeerPortDirect | hardening/peer.go:27-67 | an address that denotes no prefix changes nothing; else the hits are deleted and the accept is appended |
| Firewall.FindMissing | hardening/state_watch.go:75-86 | the loop lists, once per registry line, the ports without a rule |
| Firewall.RestoreMissing | hardening/state_watch.go:135-158 | the loop appends the rules of each listed port's last line |
| Firewall.CheckElements | hardening/state_watch.go:48-59 | the loop answers whether every element of the file is in the set |
| Firewall.NodeFirewall.Diverged | hardening/state_watch.go:40-91 | the whole detection: sets, elements, freshness, exposed rules |
| Firewall.NodeFirewall.StillBrokenAfter | hardening/state_watch.go:117-166 | what remains broken after the repair |
| Firewall.NodeFirewall.StateWatch | hardening/state_watch.go:88-186 | one watchdog run: recreate, refresh, restore, notify in the right branch |
| Repair.DivergenceMeans | hardening/state_watch.go:40-91 | a run finds nothing wrong if and only if the four sets exist, every line of the element files lies in its set, the state file is at most 25 hours old, and every registered port has a rule |
| Repair.RefreshSucceedsIff | hardening/state_watch.go:104-116 | on a diverged node the refresh succeeds if and only if four texts or more are taken and nft takes the batch, whichever sets were missing |
| Repair.RunRestoresSets | hardening/state_watch.go:104-116 | after a run on a diverged node all four sets exist, no admin element is lost, and the provider sets hold exactly what was fetched or, if that was too little, what they held |
| Repair.StaleRefreshes | hardening/state_watch.go:61-70 | a missing or stale state file alone makes the run refresh |
| Repair.AlertTells | hardening/state_watch.go:116-184 | which alert is sent: none on a node in order or within the hour; failed if the refresh did not succeed; repaired if and only if sets, elements and every lost port are back; else incomplete |
| Runs.ExposeKeeps | hardening/allowlist_remote.go:509-558 | exposing keeps registry and chain in step, keys unique, and peer ports out of the exposed chain, whether it succeeds or fails |
| Runs.UnexposeKeeps | hardening/allowlist_remote.go:574-591 | unexposing keeps them in step |
| Runs.RotationStep | hardening/allowlist_remote.go:609-622 | one reapplied line moves its own entry from the front part to the back: the loop invariant is a rotation of the list |
| Runs.ReapplyLineApplies | hardening/allowlist_remote.go:609-622 | reading a written line and exposing again is applying its entry with the new stamp |
| Runs.ReapplyRotates | hardening/allowlist_remote.go:609-622 | after k lines the registry is the list rotated by k, and the chain follows it as closely as before |
| Runs.ReapplyRebuilds | hardening/allowlist_remote.go:604-624 | from an empty chain, k lines rebuild exactly the chain of the first k entries |
| Runs.ReapplyRecovers | hardening/allowlist_remote.go:604-624 | after the flush, reapplying leaves the same entries in the same order with fresh stamps and exactly their chain |
| Runs.RestampSameChain | hardening/allowlist_remote.go:547 | the stamps change neither the entries otherwise nor the chain |
| Runs.UndoneIsNeutral | hardening/allowlist_remote.go:204-210 | a load that fails after the flush is undone completely: all chains and sets are as before |
| Runs.InstallKeeps | hardening/allowlist_remote.go:168-272 | each way an installation can end keeps the invariant with the view that belongs to it |
| Runs.RepairedFits | hardening/state_watch.go:75-158 | repair turns a lossy chain into an agreeing one, and appends nothing to a chain that agrees, even though ports without rules of their own are reported missing |
| Runs.WatchKeeps | hardening/state_watch.go:38-186 | a watchdog run keeps the invariant, whatever its refresh does |
| Runs.PeerKeeps | hardening/peer.go:27-67 | a peer exposure keeps it, with the displaced peers gone and the new one last |
| Runs.FireKeeps | hardening/allowlist_remote.go:216 | the timer, in either branch, keeps it; after a load the exposed chain follows the registry as closely as the live and the snapshot chain together |
| Runs.JoinFits | hardening/allowlist_remote.go:216 | two chains that follow the same entries, loaded one after the other, agree on every port that one of them has rules for |
| Runs.SnapshotOf | hardening/allowlist_remote.go:180 | only installations write the snapshot, and it is the table they found, whichever way they end |
| Runs.SnapKeeps | hardening/allowlist_remote.go:180-216 | every step keeps the account of how the snapshot follows the registry |
| Runs.RunKeeps | hardening/allowlist_remote.go:168-624 | the invariant holds after every sequence of installs, exposures, refreshes, watchdog runs, peer calls, commits, timers and rule losses |
| Theorems.PolicyInEveryRun | hardening/allowlist.go:244-293 | after every such sequence that leaves an agreeing state, rolled back or not, the last registry entries decide what the live exposed chain says; and where an installation describes the base chains, configuration, peers and entries decide every packet in input and forward |
| Theorems.ChainEqualsRegistry | hardening/allowlist_remote.go:537-584 | in every sequence of exposures, unexposures, reapplications, refreshes, watchdog runs, peer calls, reinstalls that complete or fail before arming, and timers that find nothing to do, the exposed chain is rule for rule and in order the blocks of the last lines per port, and no key occurs twice |
| Theorems.ReinstallRecovers | hardening/allowlist_remote.go:205-270 | a complete reinstall over any reachable state leaves exactly the registry's chain and the same entries in the same order, stamps aside |
| Theorems.BaseIsDescribed | hardening/steps.go:234-250 | the freshly hardened node, with its accepting forward policy as the last rule it amounts to, satisfies the invariant, so the theorems apply from there |
| Theorems.SetsOverRuns | hardening/allowlist_remote.go:108-151 | over every sequence no admin element is ever lost, and once the provider sets hold four elements they never fall below four |
| Theorems.PeerPortsUnshadowed | hardening/allowlist_remote.go:487-502 | under the invariant the exposed chain gives no verdict at all on 8472, 2379, 2380 and 10250 |
| Theorems.StepPeerRule | hardening/peer.go:51-57 | a step keeps a peer's rule if and only if it is not an installation that reaches the new table and not a peer call whose deletion hits it without being the same call |
| Theorems.FleetCallsKeep | hardening/peer.go:15-20 | with the transport PeerProto gives, a call whose address text is no beginning of the listed source, but for the same call again, keeps the rule |
| Theorems.HostCallsKeep | hardening/peer.go:27-57 | a call with a bare address keeps every peer's rule, whatever its port and protocol |
| Theorems.PeersNeverShadowed | hardening/peer.go:27-67 | after exposing a peer port, every packet from that peer on that port and protocol is let in for as long as only rule-keeping steps follow, whatever is exposed, reapplied or repaired meanwhile |
| Theorems.FleetPeerGetsIn | hardening/peer.go:15-67 | after the call for an address on 8472, 2379, 2380 or 10250, every packet from it to that port, by UDP for 8472 and TCP otherwise, is let in throughout every run without another installation whose peer calls are for bare addresses |
| Peering.PeerAddrIsNormal | hardening/peer.go:30-45 | the address check and completion accept exactly the texts that denote a prefix, and agree with NormalizeCIDR |
| Peering.DeleteBehind | hardening/peer.go:51-56 | behind rules it cannot hit, the deletion by listed text removes exactly the displaced peers |
| Peering.PeerOnRendered | hardening/peer.go:51-57 | on an installed chain: the rendered rules untouched, the remaining peers in order, the new one last |
| Peering.OtherProtocolDisplaces | hardening/peer.go:25-57 | exposing the same peer port on the other protocol loses the first rule, contrary to the comment, if and only if the peer's text begins its own listing |
| Peering.ReplacesItself | hardening/peer.go:25-57 | a call with a printed IPv4 prefix replaces its own earlier rule if and only if it is no host and has no host bits |
| Peering.HostPeersAccumulate | hardening/peer.go:36-57 | a host's call removes nothing, of whatever peers, its own earlier rule included |
| Peering.BareAddressIsHost | hardening/peer.go:36-45 | a bare address of either family is completed to a host |
| Listing.ListedDenotes | hardening/peer.go:51-52 | a source means the same as listed as it did as written |
| Listing.HostIsNeverListed | hardening/peer.go:51-52 | a host with its mask begins no listed source of either family |
| Listing.OwnListing | hardening/peer.go:46-52 | a printed IPv4 prefix begins its own listing if and only if it is a network without host bits |
| Watchdog.RestoreIsBlock | hardening/state_watch.go:136-155 | the rules the watchdog rebuilds from a written line are exactly the block the exposure compiled, for every scope |
| Watchdog.MissingOfRendered | hardening/state_watch.go:75-86 | over a written registry, detection lists exactly the entries whose port has no rule, once per line |
| Watchdog.RestoreOfRendered | hardening/state_watch.go:135-158 | over a written registry, repair appends the last entry's block once per listing |
| Watchdog.AppendingHeals | hardening/state_watch.go:75-158 | if every port has either all or none of its rules, appending the missing blocks, as often as listed, restores agreement |
| Watchdog.AgreeingUntouched | hardening/state_watch.go:135-158 | where every port agrees, ports listed as missing have an empty block, and repair leaves the chain as it is |
| Watchdog.WatchHeals | hardening/state_watch.go:104-158 | one watchdog run whose refresh succeeds, or that finds nothing wrong, ends in agreement |
| Watchdog.WatchRestoresVerdicts | hardening/state_watch.go:75-158 | whatever set of ports lost its rules, one such run gives exposed, input and forward the verdict they had before the loss, for every packet and any set contents |
| Watchdog.WatchRestoresAdminSet | hardening/state_watch.go:47-116 | an admin set of either family that disappeared or was emptied has exactly its element file's addresses after a watchdog run if and only if the file holds at most one |
| Refreshing.Classify | hardening/allowlist_remote.go:111-118 | the classification loop yields exactly the accepted v4 and v6 texts, and counts each distinct one once |
| Refreshing.RefreshIsAllOrNothing | hardening/allowlist_remote.go:108-151 | either both provider sets become exactly the accepted texts, four or more in all, with the sync time set, or both and the sync time stay; admin elements stay either way and nothing else changes |
| Refreshing.SelfHealKeeps | hardening/allowlist_remote.go:88-106 | self-heal loses no element of any set |
| Refreshing.AcceptedDenotes | hardening/allowlist_remote.go:111-116 | every v4 text that gets in denotes a prefix and passes the Go check as IPv4 |
| Access.ProviderGetsIn | hardening/allowlist_remote.go:108-151 | after a refresh that took four texts or more and whose batch nft took, every source of either family that a taken text denotes is let in and forwarded by the rendered chains, unless an exposure drops the packet |
| Access.TakenFamily | hardening/allowlist_remote.go:112-115 | what is taken for a family is of that family, if it denotes anything |
| Access.PublishedIsTaken | hardening/allowlist_remote.go:111-116 | of a list with one prefix a line, IPv4 and IPv6 mixed, with masks, every line is taken, for its own family |
| Access.PublishedGetsIn | hardening/allowlist_remote.go:108-151 | from such a list to the packet: every address in the block of a listed prefix is let in and forwarded after the refresh |
| Minimum.MinimumCountsTexts | hardening/allowlist_remote.go:116-124 | for every fetched text the IPv4 count is at least the number of networks denoted, and equal if and only if no network is written in two ways |
| Minimum.RepeatsWithoutHostBits | hardening/allowlist_remote.go:116-124 | without host bits, that means: no address occurs both bare and with /32 |
| Minimum.SameNetwork | hardening/allowlist_remote.go:116-124 | two texts denote the same addresses if and only if they denote the same network |
| Minimum.CountIsExact | hardening/allowlist_remote.go:116-124 | for texts of either family: as many address sets as texts if and only if each denotes one and no two the same |
| Minimum.TwoAddressesPass | hardening/allowlist_remote.go:118-124 | any two addresses, each bare and with /32, make four entries and two networks and pass the minimum |
| Minimum.NoAddressesPass | hardening/allowlist_remote.go:43-45 | four accepted IPv6 texts that denote no address pass the minimum |
| Refreshing.CommaListReads | hardening/allowlist_remote.go:128-130 | a comma-joined list of addresses is read as exactly those addresses |
| Refreshing.BlankListFails | hardening/allowlist_remote.go:91-94 | a blank-joined list of two or more is not an element list |
| Refreshing.HealRestoresAtMostOne | hardening/allowlist_remote.go:88-106 | an emptied admin set is restored to its file if and only if the file has at most one address; otherwise nothing changes |
| Refreshing.TwoAdminsStayLost | hardening/allowlist_remote.go:91-94 | a concrete file of two addresses that is not restored |
| Admins.ParseAdminIPs | cmd/sdk-ops/infra.go:521-540 | the loop skips blanks, normalises, splits by family, and fails with the first bad address; the two lists hold exactly the normalised addresses of their family among the parts |
| Admins.ParsedAdminsHeal | cmd/sdk-ops/infra.go:521-540 | for the parsed admins of an installation, of either family, a watchdog run restores a lost or emptied admin set if and only if at most one address was given |
| Rollback.LoadedAtMostOnce | hardening/allowlist_remote.go:213-216 | from the arm step on, in every interleaving without another installation, the timer loads the snapshot at most once |
| Rollback.CommitPreventsLoad | hardening/allowlist_remote.go:276-282 | once the flag is touched, before the unit is even stopped, no continuation loads the snapshot |
| Rollback.CommitSettles | hardening/allowlist_remote.go:276-282 | after a whole commit, on any node, no continuation loads the snapshot and the timer stays stopped |
| Rollback.UncommittedTimerLoads | hardening/allowlist_remote.go:213-216 | without a commit the timer does load, and the snapshot is the table before the installation, whether or not an earlier installation left its flag |
| Rollback.RollbackSays | hardening/allowlist_remote.go:180-216 | the exact verdict of the exposed chain after an uncommitted timer, from any agreeing state and in every interleaving: the present entry of the packet's port where that port has rules, else the entry of before the installation |
| Rollback.RollbackRestoresAccess | hardening/allowlist_remote.go:180-216 | from any agreeing state, a packet let in or forwarded before and dropped by no exposure then is let in or forwarded after an uncommitted timer if and only if it is loopback (input) or established or the registry of that moment does not drop it on a port with rules |
| Rollback.RollbackIsUnion | hardening/allowlist_remote.go:180-216 | for every packet, refused before or not: after an uncommitted timer, input and forward allow exactly what the earlier or the later configuration, each with its peers, allows over that exposed verdict and the joined sets |
| Rollback.JoinedIsUnion | hardening/allowlist_remote.go:216 | of two chains that drop only through the jump, loaded one after the other, either may let in a packet the jump does not drop |
| Rollback.RollbackRestoresUntouched | hardening/allowlist_remote.go:180-216 | if its port is not exposed between arming and the timer, it is let in, or forwarded, again without further condition |
| Rollback.WantedStays | hardening/allowlist_remote.go:204-216 | in that window such a port keeps its block or loses its lines, whatever reapply, watchdog, losses and other exposures do |
| Rollback.ReexposedIsLost | hardening/allowlist_remote.go:216 | a packet from elsewhere to a port open to everyone before and exposed for admins in the window was let in and no longer is |
| Rollback.RollbackUnlessDropped | hardening/allowlist_remote.go:180-216 | from any state at all: let in, or forwarded, again if and only if loopback (input) or established or the joined exposed chain does not drop it; and then a drop rule matches it |
| Rollback.JoinedLetsIn | hardening/allowlist_remote.go:216 | joining two tables and their sets keeps what the second let in, unless the joined exposed chain drops it |
| Rollback.InstallIsArmSeedReapply | hardening/allowlist_remote.go:204-270 | an installation that arms is the armed state followed by the seed and, if that succeeded, the reapply, so the interleavings above include it |
| Cooldown.NotifiesUnlessRecent | hardening/state_watch.go:95-184 | a divergence is announced if and only if no alert with its digest went out in the last hour |
| Cooldown.WatchRecord | hardening/state_watch.go:95-186 | every branch of a watchdog run keeps file and alerts in step |
| Cooldown.OthersKeepRecord | hardening/state_watch.go:167-184 | no other script touches the record |
| Cooldown.NotificationsAreSpaced | hardening/state_watch.go:95-184 | with a forward clock, over every sequence of operations, two alerts with one digest are at least 3600 seconds apart |
| Resolver.Walker.Resolve | hardening/allowlist.go:140-170 | the recursive walk with the shared map terminates; a success follows every include of what it expanded, each domain once, and returns exactly their ranges; an error names its cause |
| Resolver.ResolveTXT | hardening/allowlist.go:140-170 | on success the result is, as a multiset, exactly the valid range tokens of all domains reachable through includes, each expanded once; a failed lookup is a reachable domain without records, a depth error a reachable domain behind a chain of eleven distinct includes that starts at the root |
| Graph.TokensAre | hardening/allowlist.go:153-155 | the tokens of written records are their words, in order, quotes gone |
| Graph.TargetIs | hardening/allowlist.go:156 | the include prefix is cut off whole, and no other word is an include |
| Graph.EdgeIff | hardening/allowlist.go:156-157 | in a zone written from an abstract graph, the edges followed are exactly the listed includes |
| Graph.ReachableIff | hardening/allowlist.go:156-163 | and the domains reached are exactly those at the end of a way of listed includes |
| Graph.ResolvedInGraph | hardening/allowlist.go:140-170 | what a resolution returns, said of the graph: exactly the listed valid ranges of the domains the root reaches, each domain counted once; or a reached domain without records, or one at the end of a way of eleven includes through eleven different domains |
| Resolver.IncludeProgress | hardening/allowlist.go:156-163 | one include token adds exactly the sub-call's expansions and ranges |
| Resolver.ClosedContainsReachable | hardening/allowlist.go:140-170 | a set closed under includes contains everything reachable from it |
| Resolver.SmallZonesAreNotTooDeep | hardening/allowlist.go:141-143 | a zone of ten domains or fewer never meets the depth guard, cycles or not |
| SshPorts.CurrentSSHPorts | hardening/allowlist.go:339-356 | the scan of the printed chain, the map and its unordered listing yield the specified list; a failed listing yields the fallback port alone |
| SshPorts.SshListIsUnique | hardening/allowlist.go:344-355 | there is one such list, whatever order the map is walked in |
| SshPorts.LineRead | hardening/allowlist.go:345-350 | a printed rule is read as exactly its ports and, for a peer rule, the leading number of its listed source |
| SshPorts.OpenLine | hardening/allowlist.go:266 | the listed line of an open port list, word for word |
| SshPorts.PeerLine | hardening/peer.go:57 | the listed line of a peer rule, word for word |
| SshPorts.CurrentPortsExactly | hardening/allowlist.go:339-356 | the answer holds the fallback port and exactly the shown port numbers other than 80, 443 and 6443 |
| Text.ScanSigned | hardening/allowlist.go:347 | a sign before the digits of a field is read as one |
| Text.ScanNothing | hardening/allowlist.go:347 | a field that starts with neither sign nor digit is no number |
| SshPorts.NftablesFirewall | hardening/steps.go:220-248 | the reassigned port string is the printing of the base ports, the input chain opens exactly those, and forward accepts |
| SshPorts.BasePortsAre | hardening/steps.go:220-230 | the base ports are 22, 80, 443, 6443, the migrated port if there is one, and 9100 with the monitor |
| SshPorts.BaseTableAllows | hardening/steps.go:237-247 | the hardened table lets in exactly loopback, established, icmp and TCP to those ports, and forwards everything |
| SshPorts.SshSurvivesMigration | hardening/allowlist.go:261-356 | a Normal installation with the ports read back from any printed chain lets in, from any source, every ungated port open there and the fallback port, unless an exposure drops it |
| SshPorts.BasePortsSurvive | hardening/steps.go:220-248 | in particular 22, the migrated SSH port and the monitor port of the base ruleset stay open |
| SshPorts.ReinstallIsFixedPoint | hardening/allowlist.go:261-356 | over a rendered Normal chain without peers, reading back yields the same list again |
| SshPorts.PeersChangeAnswer | hardening/allowlist.go:345-350 | peer rules leave the answer alone if and only if their eligible ports and leading source numbers are listed already |
| SshPorts.KubeletBecomesPublic | hardening/allowlist.go:345-350 | with a kubelet peer rule in the chain, a Normal reinstall lets 10250 in from every source |
| Cidr.NormalizeIdempotent | hardening/allowlist.go:105-114 | normalising twice is normalising once |
| Cidr.NormalizeMeaning | hardening/allowlist.go:105-114 | normalising keeps the denoted address set, and what denotes nothing still denotes nothing |
| Cidr.NormalizedCheck | hardening/allowlist.go:79-114 | after normalising, the check accepts exactly the texts that denote a prefix and reports their family |
| Cidr.CheckBeforeNormalizing | hardening/allowlist.go:79-114 | checking the raw text instead differs for exactly one family: bare IPv4-mapped IPv6 addresses |
| Cidr.NormalizedText | hardening/allowlist.go:105-114 | a normalised valid text is one word without commas, so it survives files, fields and lists |
| Cidr.FamilyByColon | hardening/state_watch.go:149-152 | the watchdog's colon test finds the family of a normalised text |
| Cidr.Cidr4MatchesLanguage | hardening/allowlist_remote.go:39-41 | the pattern is the language of four octets up to 255 without leading zeros and an optional length up to 32 |
| Cidr.Cidr4IsCanonicalPrinting | hardening/allowlist_remote.go:39-41 | that language is exactly the set of canonical printings |
| Cidr.PrintedIsAccepted | hardening/allowlist_remote.go:39-41 | a printed prefix is accepted and denotes the number and length it was printed from |
| Cidr.AcceptedIsPrinted | hardening/allowlist_remote.go:39-41 | an accepted text is the printing of some number and length |
| Cidr.Cidr4PassesGoCheck | hardening/allowlist.go:93-98 | what the node-side pattern accepts, the Go check accepts as IPv4 |
| Cidr.DenotesRange | hardening/allowlist.go:79-114 | a text denotes one block of consecutive addresses of its family, and none of the other |
| Ipv6.Cidr6MatchesLanguage | hardening/allowlist_remote.go:43-45 | the IPv6 test accepts exactly the language of its pattern with a colon somewhere |
| Ipv6.ColonShapeIs | hardening/allowlist_remote.go:112-115 | the shape test asks for two colons somewhere |
| Ipv6.LongFormDenotes | hardening/allowlist.go:84-90 | every 128-bit number is denoted by its eight groups |
| Ipv6.UpperReadsAsLower | hardening/allowlist.go:84-90 | upper-case hex digits read as lower-case ones |
| Ipv6.CompressedDenotes | hardening/allowlist.go:84-90 | the form with a double colon denotes the number with zero groups in the gap |
| Ipv6.MappedDenotes | hardening/allowlist.go:88 | a mapped IPv4 address in dotted form denotes its number and is recognised as mapped |
| Ipv6.WrongCountMeansNothing | hardening/allowlist.go:84-91 | without a double colon, any number of groups but eight denotes nothing |
| Ipv6.NoGapMeansNothing | hardening/allowlist.go:84-91 | nor does a double colon among eight groups or more |
| Ipv6.LongGroupMeansNothing | hardening/allowlist.go:84-91 | nor a group of more than four digits |
| Ipv6.AddressesFit | hardening/allowlist.go:79-100 | no text of either family denotes a number beyond its width |
| Ipv6.V6PrefixDenotes | hardening/allowlist.go:84-90 | a printed IPv6 prefix denotes its network and passes the Go check as IPv6 |
| Ipv6.V6Taken | hardening/allowlist_remote.go:43-45 | printed IPv6 prefixes and addresses are taken by the updater |
| Releases.ServiceDir.UploadAndDeploy | deploy/upload.go:159-213 | version, directory and links as the model function says, for each way the upload can end |
| Releases.ServiceDir.RollbackTo | deploy/upload.go:215-260 | the links, or the error and no change |
| Releases.DeployWritesFresh | deploy/upload.go:34-50 | an upload writes to a new directory if and only if the listing worked or version 1 does not exist, and then nothing written before changes; the number is one more than the greatest listed, or 1 |
| Releases.DeployLeaves | deploy/upload.go:173-212 | what an upload leaves, for each way it can end: the content, or what arrived of it, in the next version alone, and the links as they were unless the last step was reached |
| Releases.FailedListingOverwrites | deploy/upload.go:38-40 | a concrete overwrite of version 1 |
| Releases.TwoHopsSuffice | deploy/upload.go:224-237 | two links, and names below them, resolve in two hops or never |
| Releases.WhereRollbackLeads | deploy/upload.go:215-246 | for every accepted request, names of other directories and names below the links included: where current leads afterwards, and that previous leads to where current did |
| Releases.RollbackStaysOnVersion | deploy/upload.go:215-246 | current stays on a version if and only if the request is the default on a version, a version, or previous; it resolves to nothing if and only if the request goes through current, or below previous to a directory the present version lacks |
| Releases.DotIsAccepted | cmd/sdk-ops/deploy.go:1349-1350 | a concrete departure: the name `.` is accepted and makes current the service directory |
| Releases.SubdirectoryIsAccepted | deploy/upload.go:219-232 | so is the path of a directory inside a version |
| Releases.RollbackRefuses | deploy/upload.go:225-258 | a rollback is refused if and only if what it asks for is no directory, with the error of its kind |
| Releases.OnlyAllowedKeepResolving | deploy/upload.go:215-246 | an accepted rollback keeps the links in order if and only if it is the default, a version, or previous |
| Releases.LinksOverRuns | deploy/upload.go:200-246 | over every sequence of deploys and such rollbacks, from the empty service directory (Releases.NothingDeployed) or any state in order, current resolves without cycles to an existing version once it is linked |
| Releases.RollbackPair | deploy/upload.go:233-246 | the default rollback swaps the resolved pair |
| Releases.TwoRollbacks | deploy/upload.go:233-246 | two default rollbacks are the identity on the resolved pair |
| Releases.ThereAndBack | deploy/upload.go:219-246 | rolling back to a version and then by default returns to the start |
| Releases.RollbackAfterDeployStays | deploy/upload.go:200-209 | right after a deploy the default rollback stays on the new version |
| Releases.VersionsOverRuns | deploy/upload.go:34-50 | while listing works, no directory ever written changes, and each new number exceeds all earlier ones |
| Swap.ApplySwap | hardening/swap.go:14-42 | the assignments and caps in their order leave a file of the specified size |
| Swap.SizeBounds | hardening/swap.go:14-42 | the computed size lies between half and twice the RAM |
| Swap.UnitsRange | hardening/swap.go:14-42 | one unit per started 10240 MB of free disk, at least one, at most four |
| Swap.SmallIsSkipped | hardening/swap.go:14-42 | below 256 MB the old file stays; else the new one has the wished size or fills the disk |
| Swap.SizeMonotone | hardening/swap.go:14-42 | more free disk never means less swap |
| Swap.StepAntitone | hardening/swap.go:14-42 | with 512 MB of RAM or more, a larger present file leads to a file no larger than a smaller one would |
| Swap.FourValuesSettle | hardening/swap.go:14-42 | the two-step map on the four unit counts is at a fixed point after three applications |
| Swap.SizesFollowUnits | hardening/swap.go:14-42 | from the first run on, file sizes are determined by unit counts |
| Swap.RepeatedRunsPeriodic | hardening/swap.go:14-42 | on a disk of fixed total, from any start, sizes have period at most two from the seventh run on |
| Swap.TwoCycleExists | hardening/swap.go:14-42 | a disk on which the size alternates for ever |
| ImageRef.SplitPath | bunny/mc_deploy.go:124-135 | the index loop is splitting on the slash |
| ImageRef.SplitPathInverts | bunny/mc_deploy.go:124-135 | splitting and joining are mutual inverses |
| ImageRef.CutTag | bunny/mc_deploy.go:89-105 | the backward scan cuts where the specification cuts |
| ImageRef.ParseImageRef | bunny/mc_deploy.go:89-122 | the loops return the specified namespace, name and tag |
| ImageRef.TaggedRoundTrip | bunny/mc_deploy.go:89-122 | a tagged reference comes back as it went in, for host paths of any depth, ports included |
| ImageRef.BareNameRoundTrip | bunny/mc_deploy.go:89-122 | a bare name belongs to the library namespace |
| ImageRef.UntaggedRoundTrip | bunny/mc_deploy.go:89-122 | without a tag the reading is right if and only if every colon of the path is its first character or follows a slash |
| ImageRef.RegistryPortSwallowsRepository | bunny/mc_deploy.go:89-122 | an untagged reference with a registry port loses its repository to the tag |

## Left out

- SSH, HTTP, the command line, file permissions and failing sudo: commands on validated input are taken to succeed, except where their failure is a parameter (configuration check, load, refresh batch, listing, upload, link update, new connection).
- The text nft prints for a live table: rules are data, and the `dport` and `saddr` greps act on their fields; only the lines that CurrentSSHPorts reads are printed.
- What `gather` fetches and the node-side `resolve_txt`: the fetched text is a parameter of a refresh. ParseCIDRList, FetchCIDRs and ParseSource are left out, because they only filter lists.
- AllowlistAdminAdd, AllowlistAdminRemove and RemoveAllowlist: removal deletes by an address pattern that its own slash breaks, so agreement of admin sets and element files afterwards is not claimed.
- The 30 seconds and the five minutes: only the order of steps is modelled, and every order is covered. Two installations that interleave on one node are not.
- /etc/nftables.conf and its reload at boot; the output chain.
- Repair of a partial loss of one port's rules, which the watchdog cannot see, and its report on traefik lines.
- Cooldown.NotificationsAreSpaced: alerts with equal digests are spaced; whether two different reasons share an md5 digest is not modelled, since the digest is a parameter.
- Refreshing.RefreshIsAllOrNothing: v6 texts are what the `cidr6` pattern accepts; whether each denotes an IPv6 prefix is left to nft's answer to the batch.
- Theorems.PolicyInEveryRun: once the timer has loaded a snapshot it describes the exposed chain only, until the next installation, and not even that if a port was exposed or unexposed in the window; the table as the timer leaves it is described by Rollback.RollbackIsUnion for every window.
- Peering.OtherProtocolDisplaces: an IPv6 source shorter than full length is taken to be listed as it was written; nft may list another spelling of it, and then nothing is found and nothing displaced.
- Firewall.NodeFirewall.ExposePeerPortDirect: the table is taken to exist; the refusal without one is not modelled.
- Resolver.ResolveTXT: the order of the returned ranges is not stated, only how often each occurs.
- Releases.VersionsOverRuns: no entry of a service directory but its versions is taken to begin with the letter v, and nothing deletes directories.
- Releases.WhereRollbackLeads: names are taken in normal form (`v1/` and `./v1` are v1), and below a link one name deep.
- Swap.RepeatedRunsPeriodic: file-system overhead, fstab and mkswap are left out; free space and swapfile share a fixed total.
- Texts: white space is ASCII white space, and IPv6 texts are read by RFC 4291 section 2.2 without zones.
