# Folding-hash collision simulation and follower graph, in Dafny

This project models two programs of a coursework repository and proves what they promise.

**question1Hashing.py** measures collisions in hash tables with separate chaining:

- The folding hash cuts a twelve-digit identity-card number into groups of four digits, adds the groups and takes the sum modulo the table size (`Folding`).
- A `HashTable` keeps one list ("bucket") per index, appends each key to the bucket its hash names and counts the inserts that found their bucket already occupied (`Chaining`).
- `ICSimulation` runs a number of rounds. In each round every table is reset, receives the same keys and records its collision count under its size. The round's total is recorded too. At the end it reports a mean and a collision rate per table (`Simulation`).

**question2Graph.py** keeps a small follower network (`Social`):

- Profiles have a privacy setting that hides gender and biography unless the view is forced. As in the code, a `Person` gets an empty biography and the privacy "public" unless they are given.
- A `SocialGraph` holds at most ten users and one "following" adjacency list per user. Users are added, follow and unfollow each other, and the graph lists the followers of a user.

Mutable objects are Dafny classes:

- `Chaining.HashTable` has the fields `table` and `collisions`, and a ghost `inserted`: the keys given to `Insert` since construction or the last `Reset`.
- `Simulation.ICSimulation` has `results` and `totalCollisionsPerRound`, and a list of tables.
- `Social.SocialGraph` has the fields `users`, `following` and `order`. `order` is the insertion order of the two dictionaries, which Python's dict iteration follows.

Each class method is proved against pure specification functions of the old state and the inputs:

- `Fill` and `Collisions`: the table reached by inserting a key sequence into an empty table.
- `RecordRounds` and `RoundTotals`: the results of a run.
- `FollowEdge`, `UnfollowEdge` and `FollowersAmong`: the graph updates and the followers query.

Lemmas then prove what the source promises about those functions: the bucket invariants, the collision count, the round trips, and the invariant of the graph.

Two edge cases of the code, as modelled:

- A table of size 0 is built without error; its first insert divides by zero (`total % 0`). So `HashTable.Insert` requires `size >= 1`, while the constructor and `Reset` accept any size.
- With 0 rounds or 0 keys the summary divides by zero; `Summarize` returns a `Failure` for exactly these cases.

## Model

| member | source | states |
|---|---|---|
| Folding.Value | 5002CMDAssignment/question1Hashing.py:10 | `int(group)`: a group of n digits is a number below 10^n, so a group of four is at most 9999 |
| Folding.Groups | 5002CMDAssignment/question1Hashing.py:9-10 | the groups put back together give the key; each group has 1 to 4 characters, and all but the last have exactly 4 |
| Folding.GroupCount | 5002CMDAssignment/question1Hashing.py:9 | there is one group per started block of four characters, as `range(0, len, 4)` gives |
| Folding.GroupAt | 5002CMDAssignment/question1Hashing.py:9-10 | group k is exactly the slice `key[4k : 4k+4]`, clipped at the end of the key |
| Folding.GroupsAreDigits | 5002CMDAssignment/question1Hashing.py:10 | every group of a digit key is a non-empty digit string, so `int` accepts it |
| Folding.GroupTotal | 5002CMDAssignment/question1Hashing.py:8-11 | the running `total` over the groups: no group's value exceeds it, and a single group's total is that group's value |
| Folding.FoldSum | 5002CMDAssignment/question1Hashing.py:8-11 | `total` after the loop: 0 for the empty key (the loop body never runs) |
| Folding.Fold | 5002CMDAssignment/question1Hashing.py:12 | the bucket index is in `[0, table_size)` |
| Folding.FoldSumStep | 5002CMDAssignment/question1Hashing.py:9-11 | the sum over a key is its first group's value plus the sum over the rest |
| Folding.FoldingHash | 5002CMDAssignment/question1Hashing.py:5-12 | the loop returns the sum of the four-character groups modulo the table size, an index below the size |
| Folding.IcNumberGroups | 5002CMDAssignment/question1Hashing.py:9-10 | a twelve-digit number splits into exactly three full groups: characters 0-3, 4-7 and 8-11 |
| Folding.IcNumberFoldSum | 5002CMDAssignment/question1Hashing.py:9-11 | a twelve-digit number sums to the values of its three groups, at most 3 * 9999 |
| Folding.FourDigits | 5002CMDAssignment/question1Hashing.py:10 | a four-digit group is read in base 10, leading zeros included |
| Folding.ExampleFold | 5002CMDAssignment/question1Hashing.py:5-12 | "000100020003" folds to 1 + 2 + 3 = 6, which is bucket 6 of a 1000-bucket table |
| Chaining.EmptyBuckets | 5002CMDAssignment/question1Hashing.py:22 | `size` buckets, all empty |
| Chaining.Fill | 5002CMDAssignment/question1Hashing.py:26-29 | inserting keys into a table keeps exactly `size` buckets |
| Chaining.Collisions | 5002CMDAssignment/question1Hashing.py:27-28 | the counter after inserting keys into a fresh table: the first insert always finds its bucket empty, so there are fewer collisions than keys |
| Chaining.KeysAt | 5002CMDAssignment/question1Hashing.py:26-29 | the keys collected for index i are inserted keys whose hash is i |
| Chaining.FillBucket | 5002CMDAssignment/question1Hashing.py:26-29 | after a run of inserts, bucket i holds exactly the inserted keys hashing to i, in insertion order, with none lost or merged |
| Chaining.FillCounts | 5002CMDAssignment/question1Hashing.py:27-29 | the buckets hold as many keys as were inserted, and the collision count equals the number of keys minus the number of occupied buckets |
| Chaining.FillHomes | 5002CMDAssignment/question1Hashing.py:26-29 | every key in bucket i hashes to i |
| Chaining.HomeBucket | 5002CMDAssignment/question1Hashing.py:26-29 | any one stored key hashes to the index of its bucket |
| Chaining.FillConsistent | 5002CMDAssignment/question1Hashing.py:25-29 | the state after any run of inserts meets both table invariants: every key is in its home bucket, and collisions + occupied buckets = keys |
| Chaining.CollisionBounds | 5002CMDAssignment/question1Hashing.py:27-28 | with n keys in `size` buckets, collisions are at least n - size and, for n >= 1, at most n - 1 |
| Chaining.SingleBucket | 5002CMDAssignment/question1Hashing.py:27-28 | a one-bucket table counts every insert after the first as a collision, e.g. 4 collisions for 5 keys |
| Chaining.RepeatedKey | 5002CMDAssignment/question1Hashing.py:27-29 | inserting one key n times stores it n times in its bucket and counts n - 1 collisions: there is no deduplication |
| Chaining.InsertLast | 5002CMDAssignment/question1Hashing.py:26-29 | one more insert puts the key at the end of its bucket and adds a collision exactly when that bucket was already occupied |
| Chaining.HashTable.constructor | 5002CMDAssignment/question1Hashing.py:20-23 | a new table has `size` empty buckets and 0 collisions, and meets the invariants |
| Chaining.HashTable.Insert | 5002CMDAssignment/question1Hashing.py:25-29 | the key is appended to bucket `folding_hash(key, size)` and no other bucket changes; the counter rises by 1 exactly when that bucket was non-empty; the invariants are kept |
| Chaining.HashTable.Reset | 5002CMDAssignment/question1Hashing.py:31-33 | the table is back to `size` empty buckets and 0 collisions, whatever came before |
| Simulation.History | 5002CMDAssignment/question1Hashing.py:58 | reading the `defaultdict(list)`: a size without entries reads as the empty list, a stored size as its list |
| Simulation.AppendHistory | 5002CMDAssignment/question1Hashing.py:74 | `results[size].append(count)` makes the list of `size` exist and end with `count`, and leaves every other size's list as it was |
| Simulation.RecordRoundKeys | 5002CMDAssignment/question1Hashing.py:70-74 | after a round, the sizes with a list are exactly those that had one before plus the sizes of the tables |
| Simulation.RecordRoundsKeys | 5002CMDAssignment/question1Hashing.py:65-74 | after a run of at least one round every table size has a list; no other size gains one; with no rounds the set of sizes with a list is unchanged |
| Simulation.RoundTotalBounds | 5002CMDAssignment/question1Hashing.py:68-75 | `round_total` is at least each table's count for the round and at most one collision per key per table |
| Simulation.RoundTotals | 5002CMDAssignment/question1Hashing.py:68-82 | one total per round, and round r's total is the sum over the tables of their collisions for round r's keys |
| Simulation.RecordRoundLength | 5002CMDAssignment/question1Hashing.py:74 | a round appends to the list of a size once per table of that size; other lists are untouched |
| Simulation.RecordRoundsLength | 5002CMDAssignment/question1Hashing.py:65-74 | after R rounds each size's list has grown by R times the number of tables of that size |
| Simulation.RecordRoundDistinct | 5002CMDAssignment/question1Hashing.py:74 | with distinct sizes, a round appends exactly the table's own collision count to its size's list |
| Simulation.RecordRoundsDistinct | 5002CMDAssignment/question1Hashing.py:57-74 | from empty results and distinct sizes, each table's list has one entry per round; entry r is its collision count for round r's keys alone, because of the reset |
| Simulation.RoundStep | 5002CMDAssignment/question1Hashing.py:70-75 | handling one more table appends its count to its size's list and adds it to the round total |
| Simulation.RunStep | 5002CMDAssignment/question1Hashing.py:65-82 | one more round is recorded after the earlier ones, and its total is appended |
| Simulation.Summarize | 5002CMDAssignment/question1Hashing.py:93-94 | the summary succeeds exactly when rounds > 0 and ic_count > 0 (otherwise the division by zero is reported as `NoRounds` or `NoKeys`); then mean * rounds = sum of the history and rate * ic_count = 100 * mean |
| Simulation.RateBelowHundred | 5002CMDAssignment/question1Hashing.py:93-94 | a mean below ic_count collisions per round gives a rate in [0, 100) percent |
| Simulation.RateIsPercentage | 5002CMDAssignment/question1Hashing.py:65-94 | for a table's history from a run with distinct sizes (one count per round), at least one round and one key, the summary succeeds and the collision rate is in [0, 100) |
| Simulation.InsertEach | 5002CMDAssignment/question1Hashing.py:72-73 | the round's keys go into the table one by one, in order |
| Simulation.PlayTable | 5002CMDAssignment/question1Hashing.py:71-75 | after reset and inserts the table holds exactly this round's keys, and its count is the collision count of those keys alone |
| Simulation.ICSimulation.constructor | 5002CMDAssignment/question1Hashing.py:54-59 | one fresh empty table per configured size, in order; empty results and totals; `ic_count` defaults to 1000 and `rounds` to 10 |
| Simulation.ICSimulation.Run | 5002CMDAssignment/question1Hashing.py:65-82 | the results and per-round totals grow exactly as `RecordRounds` and `RoundTotals` give for the supplied keys; after at least one round every table holds exactly the last round's keys |
| Simulation.ICSimulation.PlayAt | 5002CMDAssignment/question1Hashing.py:70-75 | one table's turn: it ends up holding exactly the round's keys with their collision count, and the tables before it keep the round's keys |
| Simulation.ICSimulation.RunRound | 5002CMDAssignment/question1Hashing.py:66-82 | each table, in order, is reset, gets the round's keys and appends its count to its size's list; the round total is appended; afterwards every table holds exactly the round's keys |
| Social.Capitalize | 5002CMDAssignment/question2Graph.py:18 | same length; the first letter is upper-cased and the rest lower-cased (ASCII) |
| Social.DisplayProfile | 5002CMDAssignment/question2Graph.py:10-18 | username and name always come first; a hidden profile has exactly these two lines and then "Profile is private."; a shown profile has five lines, adding "Gender: ", "Biography: " and "Privacy: " with the gender, the biography and the capitalized privacy; `forceView` defaults to false |
| Social.DisplayProfileHides | 5002CMDAssignment/question2Graph.py:15-18 | gender and biography appear exactly when privacy is not "private" or the view is forced; username and name always appear |
| Social.ForcedViewShowsAll | 5002CMDAssignment/question2Graph.py:15-18 | a forced view has five lines whatever the privacy: gender, biography, and last "Privacy: " with the capitalized setting |
| Social.RemoveFirst | 5002CMDAssignment/question2Graph.py:50 | `list.remove` deletes the first occurrence of the element: the result is the list before that position followed by the list after it, so the other elements keep their order; one element fewer, and the multiset loses one copy |
| Social.RemoveFirstNoDuplicates | 5002CMDAssignment/question2Graph.py:49-50 | on a list without duplicates, remove leaves a list without duplicates holding exactly the other elements |
| Social.RemoveAppended | 5002CMDAssignment/question2Graph.py:40-50 | removing an element just appended to a list that lacked it gives the list back |
| Social.FollowUnfollow | 5002CMDAssignment/question2Graph.py:39-50 | if a does not follow b, follow(a, b) then unfollow(a, b) restores the adjacency lists exactly |
| Social.FollowEdge | 5002CMDAssignment/question2Graph.py:40 | the followee goes to the end of the follower's list; the users and every other list stay as they were |
| Social.UnfollowEdge | 5002CMDAssignment/question2Graph.py:50 | the first occurrence of the followee is removed from the follower's list (one entry fewer, the rest in order); the users and every other list stay as they were |
| Social.FollowersAmong | 5002CMDAssignment/question2Graph.py:86-90 | the collected users are exactly those whose list contains the user |
| Social.FollowersDistinct | 5002CMDAssignment/question2Graph.py:87-90 | each follower is listed once |
| Social.AddKeepsInvariant | 5002CMDAssignment/question2Graph.py:29-31 | adding a new user, while fewer than ten exist, with an empty list keeps the graph invariant |
| Social.FollowKeepsInvariant | 5002CMDAssignment/question2Graph.py:38-40 | a follow between two users not yet linked keeps the invariant: no duplicate edges, and followees are users |
| Social.UnfollowKeepsInvariant | 5002CMDAssignment/question2Graph.py:49-50 | removing an existing edge keeps the invariant |
| Social.FollowersExactly | 5002CMDAssignment/question2Graph.py:87-89 | in a valid graph, the followers listed are exactly the users whose list names the user, each once |
| Social.SocialGraph.constructor | 5002CMDAssignment/question2Graph.py:23-25 | a new graph has no users and no lists, and meets the invariant |
| Social.SocialGraph.AddUser | 5002CMDAssignment/question2Graph.py:27-34 | the person is added with an empty following list exactly when the username is new and fewer than 10 users exist; otherwise nothing changes |
| Social.SocialGraph.Follow | 5002CMDAssignment/question2Graph.py:36-45 | b is appended to a's list exactly when both are users and a does not already follow b; unknown users and repeated follows change nothing; only `following` changes |
| Social.SocialGraph.Unfollow | 5002CMDAssignment/question2Graph.py:47-53 | b is removed from a's list exactly when a is a user and a follows b; otherwise nothing changes; only `following` changes |
| Social.SocialGraph.ViewProfile | 5002CMDAssignment/question2Graph.py:61-67 | an unknown username gives nothing; a known one gives the forced-view profile: username, name, gender, biography and the capitalized privacy, whatever the privacy setting |
| Social.SocialGraph.ListFollowers | 5002CMDAssignment/question2Graph.py:80-92 | an unknown user is reported as not found. Otherwise "no followers" exactly when nobody follows the user, or else the followers, each once, in insertion order, and exactly the users whose list names the user |

## Left out

- Printing: every `print`, the tables of results, `display_hash_table` and the summary text. `listUsers` and `listFollowing` only print, so they are not modelled.
- Random numbers: `generate_ic` is replaced by the keys of each round, given to `Run` as `roundKeys`. Twelve-digit keys are a property of that generator, so the model accepts any digit strings as keys.
- `int()` on text other than plain decimal digits (signs, spaces, underscores) is not modelled: keys are digit strings.
- Negative table sizes, round counts and key counts: sizes and counts are natural numbers. A size-0 table is modelled; inserting into it is excluded by `Insert`'s precondition, because Python raises there.
- Summarize: floating-point division and the two-decimal formatting are modelled with exact real numbers. The statistical claim that larger, prime table sizes collide less is not proved.
- The module-level preloaded graph (five users, five follow edges), the menu and its `input()` loop are not modelled. Each call in the preload is covered by `AddUser` and `Follow`.
- `str.lower` on the privacy setting is not modelled: privacy is taken as already lower-case. `str.capitalize` is modelled for ASCII letters only.
- Social.DisplayProfile: returns the profile's lines; the joining of the lines with newline characters is not modelled.
- Social.SocialGraph.ListFollowers: reports usernames; the display names it prints next to them are not returned.
- question3Multithreading.py is not part of this model.
