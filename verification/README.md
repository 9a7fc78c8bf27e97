# A verified model of the test-management server

The server keeps projects, suites, cases, runs and milestones as JSON documents in
a directory tree, and accounts and grants in files beside it. This Dafny project
models the parts of it whose correctness is hardest to see from one function and
proves what they promise.

| files | what they model |
|---|---|
| `SessionProtocol`, `Sessions`, `Pruning` | sign-in, rotation and sign-out: first as steps of concurrent requests over one account list, then as single requests |
| `Accounts`, `AccountMap`, `AuthStore` | the account list and the grant files: as values, as a map, and as the object that changes them |
| `Seed`, `Unseed` | seeding the demo accounts and tearing them down |
| `Base64Url`, `AccessToken` | minting and verifying access tokens |
| `XmlDepth`, `XmlDocument`, `XmlPrefix`, `XmlDeclaration` | the byte scan that bounds the nesting of an uploaded report, the documents it reads, any bytes before them, and declarations of any content |
| `Calendar`, `DateFilter` | dates of Unix instants, and report filters that compare dates as strings |
| `LastResults` | the latest result of every case |
| `CacheKeys`, `DerivationCache`, `CacheInterleaving` | the cache of derived answers: its keys, its calls, and its races |
| `RunComposition`, `Progress` | what joins and leaves a run, and the counters of a milestone |
| `Access` | which documents a caller sees in a listing and by identifier |
| `Layout` | where each document lives |
| `Disposition` | the header a download is named by |
| `Wrappers`, `Text`, `Decimal`, `Sorting` | shared shapes: options and results, trimming, written numbers, sorted listings |

Objects the server changes in place are classes (`AuthStore`, `Cache`, `Service`,
`TestRun`, `SuiteDocument`, `CaseDocument`); loops are methods. Each such method is
proved to compute a function of its inputs or of the old state, and the lemmas are
about that function. A string is a sequence of bytes, one character each, wherever
lengths or byte ranges matter (`XmlDepth`, `Layout`, `CacheKeys`, `DateFilter`,
`AccessToken`, `Disposition`).

## Assumptions

- A lock makes a read-modify-write of one file a single step, and a file is
  published by an atomic rename; a reader sees a whole older or a whole newer file.
- Freshly minted identifiers and digests are new. Where a lemma needs it, it says so
  (`SessionProtocol.Fresh`, `Sessions.FreshDraw`, a minted account without grants).
- Argon2, SHA-256, HMAC and the JSON of the claims are functions passed as values.
  `AccessToken.Faithful` states the only property used: what is written is read back.
- Clocks are parameters, as in the code.

## Where the code differs from what it says

- A sign-out answers `true` without looking at whether its revocation removed
  anything, so two concurrent ones can both answer `true`
  (`SessionProtocol.TwoSignOutsCanAnswerTrue`). Alone, the answer is exact
  (`Sessions.LogoutIsExactAlone`).
- The date filters follow time exactly up to the year 9999, and beyond it only for
  years written 9999 followed by more digits (`DateFilter.FiltersAgreeExactly`).
- A cached value is tagged with the generation of its store, not of its computation,
  so a write in between goes unnoticed (`CacheInterleaving.WriteInBetweenGoesUnnoticed`).
  The schedules that are safe are exactly those of punctual stores
  (`CacheInterleaving.SafeSchedulesExactly`).
- The key of the last-results report joins project lists with commas. It separates
  every query the routes build, but not arbitrary scopes (`CacheKeys.CommasCollide`);
  without commas in identifiers only the empty list and the empty identifier are
  confused (`CacheKeys.ConfusedExactly`).
- A grant is keyed by folder name, so `checkout` and `checkout.json` name one grant,
  while the scope of a listing spells only the second
  (`Access.UnsuffixedReferencesDisagree`).
- A listing narrowed by a query may have lost one of an identifier's homes and then
  keeps an identifier a dereference refuses (`Access.ASuiteInTwoProjects`). The walks
  for which that can happen are known exactly (`Access.WalksAgreeExactly`).
- Tearing down what seeding created restores every account and role. A grant file
  that seeding created stays behind, empty (`Unseed.AnEmptyFileStays`), so the files
  are restored exactly when every project asked for had one
  (`Unseed.UnseedingUndoesSeeding`).
- A second seeding reports no grants exactly when no project is asked for with two
  different roles (`Seed.SeedingTwiceIsSeedingOnce`).
- A document type declaration counts as one level of nesting that never closes
  (`XmlDocument.RefusesExactlyTooDeepDocuments`).
- The comment beside the scan says that it cannot miss an element of a well-formed
  document. It can: a comment of the internal subset is scanned as part of a tag, where a
  quote (`XmlDeclaration.ApostropheHidesNesting`) or a bracket
  (`XmlDeclaration.SectionInCommentHidesNesting`) may leave the scan inside something.
  It misses no nesting past the bound exactly when the bytes before the elements, scanned
  alone, leave nothing open (`XmlPrefix.MissesNothingExactly`), as every subset does that
  begins with a markup declaration (`XmlDeclaration.SubsetCountsItsDeclarations`).
- A failed teardown is said to leave the data as it found it. It has already taken the
  roles in the projects before the unusable name
  (`Unseed.AFailedTeardownTakesARole`, `Unseed.FailedTeardownLeavesDataExactly`).
- A case whose identifier is the name of a marker, or of a document beside its suite,
  needs a directory where that file is (`Layout.PrefixesBlockExactly`).
- A suite or direct case in a folder named like a collection shares its path with a
  document of that collection (`Layout.PathsMeetExactlyInCollections`); the reserved
  names exclude it.

## Model

| member | source | states |
|---|---|---|
| SessionProtocol.StepKeeps | src/auth/session.rs:121-217 | every step of every request, prune, account change or crash keeps the invariant of the protocol |
| SessionProtocol.ExchangedAtMostOnce | src/auth/session.rs:171-183 | in every interleaving a refresh token passes the revocation gate at most once |
| SessionProtocol.SpentIsForever | src/auth/session.rs:163-183 | a digest that no longer resolves never resolves again, whatever happens later |
| SessionProtocol.ResolvesExactlyLiveTokens | src/auth/store.rs:325-342 | a digest resolves exactly when it is the digest of a live token |
| SessionProtocol.OneLiveTokenPerSession | src/auth/session.rs:243-268 | the rotations of one sign-in never leave more than one live token |
| SessionProtocol.ExactlyOneRotationWins | src/auth/session.rs:155-183 | of any number of completed rotations of a live token that nothing else touches, exactly one is issued a new token and the others are refused |
| SessionProtocol.SignOutEndsTheToken | src/auth/session.rs:197-211 | after a sign-out the token is not live, whoever ended it |
| SessionProtocol.TwoSignOutsCanAnswerTrue | src/auth/session.rs:209-210 | a run in which two sign-outs of one token both answer true |
| Sessions.Login | src/auth/session.rs:121-143 | the account list and the answer of a sign-in, the decoy verification included |
| Sessions.Refresh | src/auth/session.rs:155-183 | the account list and the answer of a rotation |
| Sessions.Logout | src/auth/session.rs:197-211 | the account list and the answer of a sign-out |
| Sessions.RefreshExchangesOneToken | src/auth/session.rs:155-183 | a refresh succeeds exactly for a stored, unexpired token, and then swaps that token for the new one and touches no other |
| Sessions.RefreshRefuses | src/auth/session.rs:155-183 | a refused refresh answers alike whatever the reason, takes the presented token with it, and touches no other |
| Sessions.ReplayIsRefused | src/auth/session.rs:163-181 | a token once exchanged is refused at every later instant |
| Sessions.LogoutIsExactAlone | src/auth/session.rs:197-211 | without interference a sign-out answers true exactly when the caller held the token, which is then gone, and changes nothing otherwise |
| Sessions.LogoutTakesOneToken | src/auth/session.rs:197-211 | a sign-out takes the presented token when the caller holds it, and nothing else |
| Sessions.SignInWorks | src/auth/session.rs:121-143 | the pair of a sign-in authenticates its account, and buys the next pair, exactly until each half expires |
| Sessions.SignInExactly | src/auth/session.rs:121-143 | a sign-in succeeds exactly when some account has the username, up to case, and the password verifies; a refusal says only that the credentials are wrong and changes nothing; a success drops every expired token, records one, and changes nothing else of any account |
| Sessions.PairsGoToTheirAccount | src/auth/session.rs:243-268 | the pair of a sign-in or a refresh: the tokens drawn, the saturated expiries, and an access token that names the entering or holding account exactly until its expiry |
| Sessions.AuthenticatesExactly | src/auth/session.rs:226-240 | exactly a token signed with the server's secret and not expired names a caller, the subject and flag of its claims; one past its expiry is expired, and every other is invalid |
| Sessions.RolesAdmitExactly | src/auth/session.rs:73-90 | a check lets administrators pass, and everyone else exactly with a role the required one admits, listed by name |
| Sessions.LoginAloneIsLogin | src/auth/session.rs:121-143 | a protocol thread that signs in without interference does what one sign-in does |
| Sessions.LogoutAloneIsLogout | src/auth/session.rs:197-211 | a protocol thread that signs out without interference does what one sign-out does |
| Sessions.RefreshAloneIsRefresh | src/auth/session.rs:155-183 | a protocol thread that runs without interference does what one refresh does |
| Pruning.RefreshDoesNotSeePruning | src/auth/store.rs:381-394 | pruning at an instant changes neither the answer of a refresh from that instant on nor, up to expired tokens, the accounts it leaves |
| Pruning.ProtocolKeepsTokensDistinct | src/auth/session.rs:121-217 | the distinct tokens that the results on pruning ask for hold in every state of the protocol |
| Pruning.PruneEquivalentStoresAnswerAlike | src/auth/session.rs:155-183 | stores that differ only in expired tokens answer every later refresh alike |
| Pruning.PrunedLookup | src/auth/store.rs:325-342 | on a pruned list a digest resolves to the same token unless that token has expired |
| AccountMap.ListRefinesMap | src/auth/store.rs:266-394 | over every sequence of store operations the list stays the map the same operations make, with distinct identifiers and usernames |
| AccountMap.OneOperationRefines | src/auth/store.rs:282-394 | each operation on the list is that operation on the map |
| Accounts.InsertRefines | src/auth/store.rs:282-302 | inserting conflicts exactly on a taken identifier or a username taken up to case, and otherwise adds one entry to the map of accounts |
| Accounts.DropUserRefines | src/auth/store.rs:312-322 | removing an account removes its entry and reports whether there was one |
| Accounts.RevokeRefines | src/auth/store.rs:364-377 | a revocation takes one token out of one account and says whether it was there |
| Accounts.InsertTokenRefines | src/auth/store.rs:345-358 | recording a token appends it to one account, or finds no account |
| Accounts.PruneRefines | src/auth/store.rs:381-394 | pruning keeps every account and drops exactly its expired tokens |
| Accounts.PruneCountsTheLoss | src/auth/store.rs:381-394 | the number pruning reports is the number of tokens it takes |
| Accounts.NameNamesOneAccount | src/auth/store.rs:274-279 | a username names one account, so the first match is the only match |
| Text.SameUpToCase | src/auth/store.rs:270-279 | two characters are the same up to case when they are equal or the two cases of one ASCII letter |
| Accounts.HoldingOfFinds | src/auth/store.rs:325-342 | a digest resolves to an account that holds it, or no account does |
| AuthStores.AuthStore.InsertUser | src/auth/store.rs:282-302 | the transaction on the account list, keeping identifiers and usernames distinct |
| AuthStores.AuthStore.RemoveUser | src/auth/store.rs:312-322 | the list without the account, and whether there was one |
| AuthStores.AuthStore.RevokeRefreshToken | src/auth/store.rs:364-377 | the list without the token, and whether it was there to drop |
| AuthStores.AuthStore.PruneList | src/auth/store.rs:384-390 | the loop drops every expired token and counts the losses |
| AuthStores.AuthStore.SetRole | src/auth/store.rs:415-420 | the grant recorded under the project's folder, or a refused project |
| AuthStores.AuthStore.RemoveRole | src/auth/store.rs:423-431 | the grant gone, every other standing, and whether there was one |
| AuthStores.AuthStore.RemoveProjectGrants | src/auth/store.rs:441-464 | the project's grant file gone, every other standing, and whether there was one |
| AuthStores.AuthStore.ProjectsForUser | src/auth/store.rs:464-474 | strictly sorted, and exactly the projects the account holds a role in |
| AuthStores.AuthStore.OrphanGrants | src/auth/store.rs:491-509 | strictly sorted, and exactly the grants of accounts the store does not hold |
| AuthStores.GrantFoldersAreNamed | src/auth/store.rs:144-152 | a grant is recorded under the project's folder name, with or without the suffix, exactly when that is a plain name short enough |
| Seed.SeedAccount | src/auth/seed.rs:133-165 | accounts, grants and report of one seeding, failures midway included |
| Seed.SeedGrants | src/auth/seed.rs:150-157 | the loop records the grants in order up to the first unusable entry, whose error it answers |
| Seed.SeedingCreatesMissingAccounts | src/auth/seed.rs:133-148 | an account of that name is left as it is; otherwise one is created from the specification, and a failure changes nothing |
| Seed.RolesAreRead | src/auth/seed.rs:112-119 | a role is read from its name whatever its case and the spaces around it, and from no other name |
| Seed.RoleNamesReadBack | src/auth/seed.rs:432-438 | the name a role is reported under reads back as the role, and is how every accepted spelling of it is reported |
| Text.TrimTakesTheSpaces | src/auth/seed.rs:112-119 | trimming takes the spaces around a text and nothing of the text |
| Seed.FirstUnusableEntryFails | src/auth/seed.rs:151-157 | the first unusable entry decides the error, and what was recorded before it stays |
| Seed.AddedNamesChanges | src/auth/seed.rs:150-157 | the report names exactly the entries that asked for another role than the account held by then |
| Seed.SeedingFailsOnUnusableEntries | src/auth/seed.rs:151-157 | the loop succeeds exactly when every entry names a known role and a usable project |
| Seed.SeedingGivesWhatIsWanted | src/auth/seed.rs:151-157 | afterwards the account holds the role asked for last in each project, and every other grant stands |
| Seed.SeedingTwiceIsSeedingOnce | src/auth/seed.rs:133-165 | a second run changes neither accounts nor grants, and reports no grant exactly when no project is asked for with two roles |
| Unseed.UnseedAccount | src/auth/seed.rs:292-372 | accounts, grants and report of one teardown: unknown accounts and refused administrators leave all as it was |
| Unseed.TeardownOfAccounts | src/auth/seed.rs:292-345 | no account of that name changes nothing; otherwise the call fails exactly for an administrator's removal or an unusable project, and removes exactly that account if asked to |
| Unseed.ReportNamesWhatWasTaken | src/auth/seed.rs:324-334 | each project under which a role was found is reported as named, with the role; every other naming is reported absent |
| Unseed.FailedTeardownLeavesDataExactly | src/auth/seed.rs:285-291 | a failed teardown leaves the accounts as they were, and the grants exactly when it refused an administrator or the account held no role in the projects before the first unusable one |
| Unseed.AFailedTeardownTakesARole | src/auth/seed.rs:324-334 | a role in the first project is gone although the second name is refused |
| Unseed.RemovedAndKeptPartitionTheGrants | src/auth/seed.rs:324-369 | each grant the account held is reported removed once or kept, never both, and nothing else is |
| Unseed.KeptGrantsAreTheOrphans | src/auth/seed.rs:347-369 | once the account is gone the kept grants are exactly the store's orphans under its identifier |
| Unseed.UnseedingUndoesSeeding | src/auth/seed.rs:292-372 | tearing down a seeded account, every seeded project named, gives back the account list and every role, and the grant files too exactly when seeding created none of them |
| Unseed.AnEmptyFileStays | src/auth/seed.rs:292-372 | from an empty store the teardown leaves an empty grant file |
| Unseed.ReportAccount | src/auth/seed.rs:388-429 | what the read-only probe finds, orphans included |
| Unseed.ProbeForetellsTeardown | src/auth/seed.rs:388-429 | asked about distinct projects the probe reports exactly what a teardown then removes and finds absent |
| Base64Url.DecodesWhatItEncodes | src/auth/token.rs:118-120 | decoding inverts encoding for all bytes (section 5 of RFC 4648) |
| Base64Url.OneSpelling | src/auth/token.rs:148-150 | a byte string has one accepted spelling |
| Base64Url.SymbolsAreTheAlphabet | src/auth/token.rs:118-120 | the symbols are the alphabet of table 2 in RFC 4648, in order |
| Base64Url.GroupsKeepTheirBits | src/auth/token.rs:118-120 | groups of one to three bytes are spelled with the same bits, most significant first |
| Base64Url.GroupsAreSpelledInTurn | src/auth/token.rs:118-120 | groups of three are spelled one after the other |
| AccessToken.MintedTokenVerifies | src/auth/token.rs:104-178 | a minted token gives its claims back strictly before the saturated expiry and is expired from it on |
| AccessToken.AcceptsExactlySignedTokens | src/auth/token.rs:133-178 | accepted are exactly the three-segment HS256 tokens whose tag is the tag of the first two segments, with unexpired claims |
| AccessToken.RefusesExactly | src/auth/token.rs:133-178 | a bad signature is exactly a three-segment HS256 token with another tag; an expired token exactly a signed one whose claims have run out |
| AccessToken.OtherSecretsRefuse | src/auth/token.rs:157-160 | under another secret the tag is refused, unless both secrets tag the message alike |
| AccessToken.ConstantTimeEq | src/auth/token.rs:227-236 | folding every difference in and testing once is equality |
| XmlDepth.SkipPast | src/domain/import.rs:128-137 | stays in bounds and stops just past the first delimiter |
| XmlDepth.ScanTag | src/domain/import.rs:142-168 | stays in bounds and stops just past the bracket outside quotes, telling self-closed tags apart |
| XmlDepth.NestsTooDeeply | src/domain/import.rs:89-124 | on arbitrary bytes terminates within bounds and decides what the scan specification says |
| XmlDocument.HeightIsTheLongestChain | src/domain/import.rs:75-88 | the height of a tree is the longest chain of elements open at once |
| XmlDocument.ScansContent | src/domain/import.rs:89-124 | printed content trips the bound exactly when it nests past it, and otherwise leaves the depth as it was |
| XmlDocument.RefusesExactlyTooDeepDocuments | src/domain/import.rs:75-124 | a well-formed document is refused exactly when more than a hundred elements are open at once, whatever its text, comments, CDATA, instructions and quoted values hold |
| XmlPrefix.MissesNothingExactly | src/domain/import.rs:82-124 | for every byte string before the elements: all content nested past the bound is refused behind it exactly when its own scan leaves no comment, CDATA section, instruction, tag or quote open |
| XmlPrefix.CountsAsExactly | src/domain/import.rs:89-124 | the bound counts a byte string as a number of open elements, for all content behind it, exactly when its own scan settles at that depth |
| XmlPrefix.BoundBehind | src/domain/import.rs:89-124 | behind a byte string that settles, content is refused exactly when its height and the depth reached exceed the bound together |
| XmlPrefix.OpenHides | src/domain/import.rs:126-168 | behind one that leaves a construct open there is, for every depth, well-formed content nested that deep which is not refused |
| XmlDeclaration.PassedWholeExactly | src/domain/import.rs:142-168 | the scan passes a declaration whole, whatever follows, exactly when it closes itself: its first bracket outside quotes is its last byte |
| XmlDeclaration.ExactBehindDeclaration | src/domain/import.rs:89-124 | the bound is exact behind a declaration of any content, counted as one level, exactly when the declaration read alone settles at one level, as every declaration does that closes itself |
| XmlDeclaration.SubsetCountsItsDeclarations | src/domain/import.rs:89-124 | an internal subset that begins with a markup declaration counts as many levels as it has markup declarations, whatever its comments, instructions and literals hold |
| XmlDeclaration.ApostropheHidesNesting | src/domain/import.rs:75-88 | an apostrophe in a comment that begins the subset leaves the declaration open, and anything without another apostrophe passes behind it, however deep |
| XmlDeclaration.BracketEndsTheDeclaration | src/domain/import.rs:142-168 | a bracket in such a comment ends the declaration, and the scan reads on inside the comment |
| XmlDeclaration.SectionInCommentHidesNesting | src/domain/import.rs:75-88 | an instruction or CDATA section that opens behind such a bracket and stays open hides nesting too |
| Calendar.CivilFromDays | src/domain/mod.rs:113-130 | for every 64-bit clock the closed form arrives at the date counted day by day from the epoch, and no intermediate value leaves 64 bits |
| Calendar.CountedIsNumbered | src/domain/mod.rs:118-130 | the date reached is a valid Gregorian date, leap years included, and its number is the number of days |
| Calendar.DatesAreCounted | src/domain/mod.rs:118-130 | every valid date from the epoch on is the one reached by its number: the conversion is a bijection |
| Calendar.DayNumbersKeepOrder | src/domain/mod.rs:118-130 | dates in calendar order have numbers in order, and only equal dates share one |
| Calendar.NumbersAgree | src/domain/mod.rs:118-130 | numbering dates in years that begin in March, as the closed form does, is numbering them in years that begin in January |
| DateFilter.FormatIso8601 | src/domain/mod.rs:113-134 | the rendering of an instant is that of the date the calendar counts to |
| DateFilter.RenderingReadsBack | src/domain/mod.rs:113-134 | the rendering is the date and a time of day whose digits count the seconds of the day |
| DateFilter.ShapedDatesCompareAsDates | src/domain/reports.rs:266-281 | dates in the accepted shape compare as strings exactly as they do as dates |
| DateFilter.DateFiltersFollowTime | src/domain/reports.rs:266-324 | before year 10000 the filters accept exactly the instants from the first day to the end of the last |
| DateFilter.FiltersAgreeExactly | src/domain/reports.rs:266-324 | the filters follow time exactly up to year 9999 and for years written 9999 and more digits |
| DateFilter.IsoTimestampsFollowDays | src/domain/reports.rs:319-336 | an ISO-8601 run passes exactly when its day lies between the two days |
| DateFilter.StoredSecondsReadBack | src/domain/mod.rs:80-86 | the stamp the server writes into a run reads back as its seconds |
| DateFilter.SecondsAreSpelled | src/domain/reports.rs:319-324 | digits, with a plus sign or without, are the number they spell, as far as it fits 64 bits, and nothing else is a number |
| DateFilter.DatesLead | src/domain/reports.rs:326-336 | a timestamp has the date in the accepted shape it begins with, whatever follows, and no other |
| DateFilter.RunInScopeMeans | src/domain/reports.rs:232-285 | a run is in scope exactly when every set filter matches, the home counting as its project: either date bound set, absent or alone, and every timestamp |
| DateFilter.BoundsAreTimes | src/domain/reports.rs:266-336 | each bound alone is an instant for runs in Unix seconds before year 10000, and a day for runs in ISO-8601 |
| LastResults.LastResults | src/domain/reports.rs:181-216 | the loop and the sort compute the report |
| LastResults.NothingIsLater | src/domain/reports.rs:155-216 | no observation of a case is later than its row: a timestamp that reads as a number beats any that does not, numbers compare by value, other timestamps as texts, and ties go to the greater run key |
| LastResults.NumbersAreSpelled | src/domain/reports.rs:164-169 | digits with an optional sign are the number they spell, as far as it fits 64 bits, and nothing else is a number |
| LastResults.ReportIsLatestPerCase | src/domain/reports.rs:181-216 | one row for each observed case, the first of its most recent observations |
| LastResults.ReportListsCases | src/domain/reports.rs:200-210 | rows strictly sorted, one for each observed case |
| LastResults.KeysAreStrictlyOrdered | src/domain/reports.rs:164-169 | recency and then the run key is a total order |
| LastResults.WalkOrderDoesNotMatterExactly | src/domain/reports.rs:173-180 | the report is the same for every order of the walk exactly when the most recent observations of each case agree on what is reported |
| LastResults.TiesAgreeWhenKeysSeparate | src/domain/reports.rs:173-180 | runs whose ties report alike need no particular order |
| CacheKeys.ScopeKeyIsInjective | src/domain/service/cache.rs:58-66 | two scopes with one key are one scope, and no filter is not the empty scope |
| CacheKeys.OptionalKeyIsInjective | src/domain/service/cache.rs:69-71 | two filter values with one key are one value |
| CacheKeys.KeysDetermineQueries | src/domain/service/reporting.rs:156-164 | over all endpoints two queries share a key exactly when they are one query or ask for last results in lists that join to one text |
| CacheKeys.ConfusedExactly | src/domain/service/reporting.rs:335-347 | for identifiers without commas two project lists join to one text exactly when they are the same up to order, or one is empty and the other holds just the empty identifier |
| CacheKeys.RoutedKeysAreInjective | src/domain/service/reporting.rs:335-347 | queries as the routes build them never share a key |
| CacheKeys.CommasCollide | src/domain/service/reporting.rs:338-342 | two different project lists with one key |
| DerivationCache.Cache.Put | src/domain/service/cache.rs:87-101 | after one call alone the new entry and the current ones stay, and every entry carries the current generation |
| DerivationCache.AnswersTheLastRemembered | src/domain/service/cache.rs:73-107 | over every sequence of stores and invalidations a look-up answers the value last remembered for its key since the last invalidation, unless that value has reached the age bound, and nothing otherwise |
| DerivationCache.Service.Answer | src/domain/service/mod.rs:757-769 | every answer, cached or computed, is what the documents give now; a computed one is remembered, a cached one changes nothing |
| DerivationCache.Service.Write | src/domain/service/mod.rs:747-749 | a write followed by its invalidation keeps every possible hit right |
| CacheInterleaving.SafeSchedulesExactly | src/domain/service/cache.rs:76-106 | a schedule of writes, invalidations, computations, loads and stores gives right hits throughout, for every history of documents and every computation, exactly when each store is punctual: no write published since the computation, or one still owing its invalidation, or one invalidated since the load |
| CacheInterleaving.PunctualSchedulesAreRight | src/domain/service/cache.rs:76-106 | punctual stores are enough from every right state, whatever is computed |
| CacheInterleaving.RightExactlyWhenPunctual | src/domain/service/cache.rs:76-106 | they are needed as soon as the answers tell versions of the documents apart |
| CacheInterleaving.StoreLeavesOneGeneration | src/domain/service/cache.rs:87-101 | a store leaves entries of one generation only, the current one exactly when none passed between its load and its lock |
| CacheInterleaving.WriteInBetweenGoesUnnoticed | src/domain/service/cache.rs:87-96 | a write in between that changes the answer leaves an outdated entry that answers |
| CacheInterleaving.WritesMissedAndNoticed | src/domain/service/cache.rs:76-106 | a write completed between computation and load is missed; one published before the computation, or completed after the load, is not |
| RunComposition.TestRun.AttachSuiteToRun | src/domain/composition.rs:54-70 | a suite joins, or the conflict leaves the contents |
| RunComposition.TestRun.AttachCaseToRun | src/domain/composition.rs:73-89 | a case joins, or the conflict leaves the contents |
| RunComposition.TestRun.CaptureCaseVersion | src/domain/composition.rs:97-102 | the first captured version stands |
| RunComposition.TestRun.AttachConfigurationToRun | src/domain/composition.rs:110-133 | a bare reference joins, or the conflict leaves the contents |
| RunComposition.TestRun.DetachConfigurationFromRun | src/domain/composition.rs:137-150 | the reference leaves, or the miss leaves the contents |
| RunComposition.TestRun.UpsertResult | src/domain/composition.rs:210-232 | the case's result updated in place, or a new one |
| RunComposition.TestRun.ReplaceResult | src/domain/composition.rs:251-258 | the case's result updated in place, or the miss leaves the contents |
| RunComposition.TestRun.RemoveResult | src/domain/composition.rs:264-277 | the case's result gone, or the miss leaves the contents |
| RunComposition.NeverRepeats | src/domain/composition.rs:54-277 | over every sequence of mutations suites, cases, results and configurations stay unique by identifier |
| RunComposition.JoinsUnlessTaken | src/domain/composition.rs:54-133 | a suite, case or configuration joins at the end, or conflicts exactly when its identifier or the one asked for is taken |
| RunComposition.FirstVersionStands | src/domain/composition.rs:91-102 | the first version captured for a case stands, a case without one counting as version 1 |
| RunComposition.RecordsOneResult | src/domain/composition.rs:200-258 | recording writes status, timestamp, notes and duration over the case's first result, or adds one, keeping attachments and links; replacing does so only where there is one |
| RunComposition.LeavesTheOthers | src/domain/composition.rs:137-277 | detaching and removing leave exactly the items with other identifiers, or miss |
| RunComposition.PinnedForGood | src/domain/composition.rs:91-102 | a pinned version never changes |
| RunComposition.LinksSurvive | src/domain/composition.rs:200-258 | a result keeps attachments and defect links through every sequence of mutations that does not remove it |
| RunComposition.HeldAfter | src/domain/composition.rs:286-305 | after every mutation exactly the cases held before and those it brings are held, except that removing a result leaves its case held only if declared |
| RunComposition.DetachingUndoesLinking | src/domain/composition.rs:110-150 | detaching the configuration just linked restores the contents |
| RunComposition.RemovingUndoesRecording | src/domain/composition.rs:210-277 | removing the result just created restores the contents |
| RunComposition.RecordingIsIdempotent | src/domain/composition.rs:210-240 | recording the same result twice is recording it once |
| RunComposition.SuiteDocument.AttachCase | src/domain/composition.rs:24-39 | a case joins, or the conflict leaves the list, whatever the list holds; a list free of repeats stays so |
| RunComposition.SuiteDocument.DetachCase | src/domain/composition.rs:42-51 | exactly the named case leaves, or nothing changes |
| RunComposition.CaseDocument.AttachDefect | src/domain/composition.rs:317-329 | a link joins, or the conflict leaves the links, whatever they are; links free of repeats stay so |
| RunComposition.CaseDocument.DetachDefect | src/domain/composition.rs:333-343 | exactly the named link leaves, or nothing changes |
| Progress.Compute | src/domain/progress.rs:19-58 | the nested loops compute the sum of the counters of the runs' populations |
| Progress.TotalCountsStatuses | src/domain/progress.rs:43-58 | run by run passed, failed, blocked and retest count the held cases whose last recorded status is that word, and untested all others |
| Progress.PopulationIsWhatTheRunHolds | src/domain/composition.rs:286-305 | the population counted for a run is exactly the cases it holds, each with the last status recorded |
| Progress.RecordedIsTheLast | src/domain/progress.rs:38-41 | the status that counts is that of the last result with the case's identifier |
| Progress.TotalsAddUp | src/domain/progress.rs:43-64 | the five buckets add up to the total, so the pass ratio lies between 0 and 100 |
| Progress.RecordingMovesOneCase | src/domain/composition.rs:210-232 | recording moves one held case between buckets, or adds one case |
| Progress.ReplacingMovesOneCase | src/domain/composition.rs:251-258 | replacing moves one recorded case between buckets, and moves nothing when none is recorded |
| Progress.RemovingMovesOneCase | src/domain/composition.rs:264-277 | removing moves a declared case to the undecided ones and takes any other out of the total |
| Progress.OneRunChanges | src/domain/progress.rs:27-58 | a milestone's counters change by what its changed run's counters change by |
| Access.ScopeAgainstRole | src/api/access.rs:50-63 | a project is in a restricted caller's scope exactly when the caller may read it and it is spelled with the suffix |
| Access.ReadScope | src/api/access.rs:50-63 | the scope read from the store is the set of projects the account holds |
| Access.MilestoneProjectsAreReached | src/api/access.rs:164-199 | a milestone reaches exactly what its resolvable references reach, the home's own documents preferred |
| Access.ReferencesPreferTheHome | src/api/access.rs:164-199 | a reference names the document its own project holds, and otherwise the one a single home anywhere holds; any other is skipped |
| Access.KeptByItsProjects | src/api/access.rs:760-812 | a run is kept when its home's project and every project it names are reachable, a milestone when its home's and all that its references reach are, anything else when its home's is |
| Access.FilterList | src/api/access.rs:740-812 | strictly sorted, and exactly the identifiers whose single home and governing projects are in scope |
| Access.GuardMeans | src/api/access.rs:320-368 | the guard answers Ok exactly when the document can be served and every governing project may be read |
| Access.GuardedByItsProjects | src/api/access.rs:206-368 | a read passes exactly for a document with one home that can be served, when the caller may read the same projects, named by the document itself |
| Access.GuardRefuses | src/api/access.rs:320-368 | no home, several homes and an unservable document are told apart before any grant is looked at; only restricted callers are refused by grants |
| Access.ListingAgreesWithDereference | src/api/access.rs:740-812 | for every walk, narrowed or not: an identifier with one home is kept, and passes the guard, on the same decision up to the suffix of the projects named; one with several homes is refused by the guard and kept exactly when the walk found one of them and its projects are in scope |
| Access.ListedExactlyWhenReadable | src/api/access.rs:320-368 | with suffixed references listing and dereference agree for a caller exactly when the identifier shown to that caller, if it is shown, has no other home |
| Access.UnsuffixedReferencesDisagree | src/api/access.rs:66-71 | a reference without the suffix passes the role check and lies outside the scope |
| Access.WalksAgreeExactly | src/api/access.rs:740-812 | listing and dereference agree for all restricted callers exactly when the walk does not find a single one of several homes and serve the document there |
| Access.NarrowedWalksHideAmbiguity | src/api/access.rs:760-785 | where a narrowed walk does, a caller with grants for just that home's projects is shown the identifier and refused it |
| Access.CompleteWalksHideNothing | src/api/access.rs:760-785 | a walk without a query never does |
| Access.ASuiteInTwoProjects | src/domain/service/crud.rs:307-334 | a suite held by two projects and a walk narrowed to one of them |
| Access.ReportsAgreeWithListings | src/domain/reports.rs:285-302 | reports count a stored run exactly when a restricted listing keeps it at its home |
| Layout.FolderNamesInvert | src/storage/layout.rs:186-193 | a folder's wire identifier names the folder again |
| Layout.MarkersLieInFolders | src/storage/layout.rs:230-351 | the whole path of every marker and revision, written out, for exactly the plain names |
| Layout.DocumentsLieInCollections | src/storage/layout.rs:230-351 | the whole path of every other document, written out; resources without a collection and identifiers without the suffix have none |
| Layout.AcceptedPathsArePlain | src/storage/layout.rs:397-419 | every component of an accepted address is a plain name below the root |
| Layout.PathsMeetExactlyInCollections | src/storage/layout.rs:230-351 | two accepted addresses share a path exactly when they are one address, or one is a marker in a collection's own folder and the other its document |
| Layout.DistinctAddressesHaveDistinctPaths | src/storage/layout.rs:18-24 | with the reserved names refused distinct addresses never share a path |
| Layout.PrefixesBlockExactly | src/storage/layout.rs:164-175 | one accepted path lies on the way to another exactly when a child folder takes the name of a marker, or of a document beside its suite's folder |
| Layout.PlainNamesAreNeverBlocked | src/storage/layout.rs:164-175 | a case identifier without the suffix below a folder other than project.json never meets a file on its way |
| Disposition.PercentEncode | src/domain/mod.rs:211-226 | the loop appends each byte or its triplet |
| Disposition.DecodesWhatItEncodes | src/domain/mod.rs:211-226 | percent-decoding gives every name back (section 3.2 of RFC 5987) |
| Disposition.FormsAgreeExactly | src/domain/mod.rs:190-208 | the plain and encoded forms agree exactly for names of allowed characters, and then both are the name |
| Disposition.ExtendedOnlyWhenNeeded | src/domain/mod.rs:190-208 | the extended name is added exactly when the name holds a character that needs encoding, and otherwise the quoted name is the whole name |
| Disposition.AllowedAreAttributeCharacters | src/domain/mod.rs:211-219 | the characters left as they are: the graphic ones but for separators and the three the extended form uses (section 3.2.1 of RFC 5987) |
| Disposition.TripletsAreUpperCase | src/domain/mod.rs:220-223 | every other byte is a percent sign and two upper-case hexadecimal digits |
| Disposition.PlainIsQuotable | src/domain/mod.rs:192-202 | the plain form holds no quote, backslash, blank or control character |
| Disposition.PlainIsSpelled | src/domain/mod.rs:192-202 | one character for each of the name, itself if graphic and neither quote nor backslash, and an underscore otherwise |
| Disposition.OriginalNameUndoesThePrefix | src/domain/mod.rs:171-180 | a digits-hyphen prefix comes off, and any other name stands |
| Disposition.HeaderKeepsTheName | src/domain/mod.rs:190-208 | a client that reads the header has the original name back (section 4.3 of RFC 6266) |

## Left out

- HTTP routing, extractors, middleware, metrics, tracing and audit lines.
- Lock polling, lock timeouts and failed I/O: a transaction happens whole or is not attempted.
- Cryptography, randomness and clocks: functions and parameters, as stated under Assumptions.
- JSON decoding and validation, multipart bodies and the XML parser behind the depth bound.
- The grammar inside a markup declaration (section 2.8 of XML 1.0): `XmlDeclaration` takes it as bytes whose only bracket outside quotes is the last.
- Symbolic and hard links: `ensure_within` and `read_confined` are not part of this model, and neither are attachment and step paths.
- Floating-point percentages: the integer counts behind them are proved instead.
- The wrap-around of the cache generation after 2^64 writes.
- The other guards of `src/api/access.rs` (create, update, delete, duplicate, compose): each is a conjunction of the same role check.
- Coverage and summary sums, defect-link shapes, duplication overrides and identifier derivation: they would only add easy members.
- The sentences a teardown reports for what it kept: a datatype names the reason.
- The branch of a teardown that skips a grant gone between two reads: seeding and teardown run without another writer here.
- DerivationCache.Service.Answer: an entry written by another replica's process is not modelled, so the age bound only makes a call compute again.
- CacheInterleaving.SafeSchedulesExactly: while a write has published its documents and not yet invalidated, a hit may still be the answer from before, so rightness is about states with no such write under way; a computation reads the documents in one step, and a look-up loads the generation and reads the entry in one step.
- Access.WalksAgreeExactly: the governing projects are assumed to be names a grant can be recorded for and spelled with the suffix, the other spelling being settled by Access.ListingAgreesWithDereference.
- Sessions.SignInWorks: the fresh-draw requirement on the second request stands for the randomness of minted tokens.
