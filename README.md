# Cluster simulator and resume-pipeline text tools, modelled in Dafny

This project models two parts of a small repository and proves properties about them.

1. **The cluster simulator** (`server_2.py`). It keeps a registry of nodes in insertion order. Each node holds its pods.
   - Pods are scheduled with a first-fit, best-fit or worst-fit policy.
   - A health monitor fails nodes whose heartbeat is older than 15 seconds and reschedules their pods.
   - An auto-scaler adds a node when CPU utilization reaches 80%, at most once per 60-second cooldown.
   - A chaos monkey kills a random node or pod.
   - Two in-memory logs (events and utilization samples) keep their last 50 entries.
   - The pure parts are datatypes and functions in module `ClusterModel`. The running server is the class `Cluster.ClusterState`. Its fields are the registry, both logs, the pod id counter and the last auto-scale time. Its methods are the endpoint bodies and the background-thread ticks.
   - Each `with nodes_lock:` block is one atomic method. `reschedule_pods_from_failed_node` releases the lock between taking the pods off the failed node and placing them again, so that step is two methods, `OrphanPods` and `ReplacePods`.
   - The clock, `uuid4` and every random draw are parameters. A random choice from a list takes the index `pick % |list|`.
   - Each in-memory log is paired with a ghost history of everything ever logged. That history stands for the SQLite sink the server also writes to. `Valid()` states that each log is the last 50 entries of its history.
2. **The resume pipeline's text tools.**
   - `format_text_to_markdown` (`text_to_pdf_converter.py`), module `Markdown`: a line rewriter with one bit of "inside a code block" state.
   - `save_to_text` (`github_scraper_new.py`), module `Scraper`: modelled as a loop that builds the text the function would write to its file.
   - `parse_repositories` and `format_output` (`src/utils/github_refiner_llm.py`), module `Refiner`.
   - The scraper-to-refiner hand-over and its round trip, module `RoundTrip`.
   - The profile and CV validators and the username extraction of `input_validator.py`, module `InputValidation`.
   - Python's string operations (`strip`, `split`, `join`, `replace`, `startswith`, `lower`, `str(int)`) are defined once, in module `Text`.

Nodes hold integer cpu and memory figures. The server never checks the sign of a request, so every capacity property here is conditional on non-negative requests. The capacity invariant `CapacityOk` says three things hold for every node:
- `0 <= available`;
- `available + (the requests of its pods) <= total`;
- every pod request is non-negative.

It is an inequality and not an equality because rescheduling a failed node's pods does not give their cpu and memory back (server_2.py:186-187).

## Model

| member | source | states |
|---|---|---|
| ClusterModel.IndexOfId | server_2.py:289 | The lookup `node_id in nodes`: it finds a position holding the id, and finds none exactly when no node has that id. |
| ClusterModel.IndexOfIdUnique | server_2.py:289 | With distinct ids, the node under a given id is found at its own position. |
| ClusterModel.PutKeepsDistinct | server_2.py:266 | `nodes[id] = node` keeps ids distinct and leaves exactly one node under the new id, at its old position or appended. |
| ClusterModel.PutKeepsCapacity | server_2.py:266-278 | Registering a node in good standing keeps the cluster in good standing. |
| ClusterModel.RemoveAtKeepsDistinct | server_2.py:290 | Deleting a registry entry keeps ids distinct. |
| ClusterModel.RemoveAtKeepsCapacity | server_2.py:290 | Deleting a node keeps the remaining nodes in good standing. |
| ClusterModel.IndicesWhereExact | server_2.py:108-118 | The eligibility list holds exactly the positions of the nodes that pass the filter, in increasing (registry) order. |
| ClusterModel.MinSlackIsLeast | server_2.py:124 | `min(eligible, key=slack)` returns a candidate of least slack. Among candidates in registry order it returns the earliest such one. |
| ClusterModel.MaxRoomIsMost | server_2.py:126 | `max(eligible, key=room)` returns a candidate of most room. Among candidates in registry order it returns the earliest such one. |
| ClusterModel.MinSlackStep | server_2.py:124 | When one more candidate is considered, `min` changes its choice only for a strictly smaller slack. |
| ClusterModel.MaxRoomStep | server_2.py:126 | When one more candidate is considered, `max` changes its choice only for strictly more room. |
| ClusterModel.SelectIsEligible | server_2.py:108-126 | A chosen node passes all of these checks: it is active, has enough cpu and memory, is in the same network group (missing = "default"), and matches the pod's affinity if one is set. A node is chosen only under one of the three policy names. |
| ClusterModel.SelectFailsIff | server_2.py:119-133 | Scheduling chooses nothing exactly when no node is eligible or the policy name is not one of the three. |
| ClusterModel.FirstFitTakesFirst | server_2.py:121-122 | first_fit chooses an eligible node, and no earlier node in the registry is eligible. |
| ClusterModel.BestFitLeastSlack | server_2.py:123-124 | best_fit chooses an eligible node leaving the least `(cpu_available-cpu)+(memory_available-memory)`. It is the earliest such node. |
| ClusterModel.WorstFitMostRoom | server_2.py:125-126 | worst_fit chooses an eligible node with the most `cpu_available+memory_available`. It is the earliest such node. |
| ClusterModel.NormalizeAlgorithmKnown | server_2.py:325-327 | The policy handed to the scheduler is always one of the three. It is the lower-cased request when that names one, and first_fit otherwise (including when none is given). Normalising twice changes nothing. |
| ClusterModel.CapacityBounds | server_2.py:108-133 | A node in good standing has `0 <= available <= total` for both cpu and memory. |
| ClusterModel.PlaceKeepsCapacity | server_2.py:127-130 | Charging a non-negative request to an eligible node keeps that node in good standing. |
| ClusterModel.RemoveFirst | server_2.py:233 | `list.remove(q)` on a list holding `q` drops one element: the multiset loses exactly one `q`. |
| ClusterModel.RemoveFirstSums | server_2.py:231-233 | Removing a pod lowers the summed cpu and memory requests by exactly that pod's. |
| ClusterModel.KillPodKeepsCapacity | server_2.py:229-233 | Killing a pod and giving back its request keeps the node in good standing. The pod list loses exactly that pod. |
| ClusterModel.AllPodsUpdate | server_2.py:128 | Replacing one node changes the cluster's pods by exactly the difference between the old and the new node's pods. |
| ClusterModel.PlaceAddsPod | server_2.py:127-130 | Charging a pod to a node adds exactly that pod to the cluster's pods. |
| ClusterModel.SameIdKeepsDistinct | server_2.py:128-130 | Updating a node in place keeps ids distinct. |
| ClusterModel.UpdateKeepsCapacity | server_2.py:128-130 | Replacing a node with one in good standing keeps the cluster in good standing. |
| ClusterModel.AllPodsSamePods | server_2.py:174 | Changing only a node's status, heartbeat or simulation flag leaves the cluster's pods as they were. |
| ClusterModel.AllPodsPointwise | server_2.py:198-201 | Registries whose nodes host the same pods position by position host the same pods overall. |
| ClusterModel.OrphanRemovesPods | server_2.py:186-187 | Emptying a node's pod list takes exactly those pods out of the cluster. |
| ClusterModel.OrphanKeepsCapacity | server_2.py:186-187 | Emptying a node's pods without giving back cpu or memory keeps it in good standing. The orphans have non-negative requests. |
| ClusterModel.ConserveStep | server_2.py:188-193 | Handling one orphan, placed or not, makes (hosted pods + pods set aside) grow by exactly that orphan. |
| ClusterModel.ReplacedStep | server_2.py:188-193 | Offering one more orphan first-fit, placed or logged as not placed, extends the rescheduling relation `Replaced`. Only active nodes take pods, no pod is lost or duplicated, and the log gains the matching entries. |
| ClusterModel.LoggedStep | server_2.py:191-193 | Entries already in the log stay there as it grows, so a logged refusal stays logged. |
| ClusterModel.OrphanEffects | server_2.py:182-187 | Orphaning empties that node alone and sets aside exactly its pods. Under good standing the orphans are non-negative. |
| ClusterModel.ReplacedAfterOrphan | server_2.py:181-193 | Placing a node's orphans again completes its rescheduling: ids and statuses are kept, the node is left empty, and every orphan is hosted or reported unplaced. |
| ClusterModel.ReplaceAllReplaced | server_2.py:188-193 | Offering orphans back first-fit in order, as the fold `ReplaceAll` does, is a rescheduling: only active nodes take pods, every orphan is hosted or unplaced, and each unplaced one is logged. |
| ClusterModel.ReplaceStepReplaced | server_2.py:189-193 | One orphan more offered by `ReplaceStep` keeps the rescheduling relation `Replaced`. |
| ClusterModel.ReplaceAllNext | server_2.py:188-193 | The fold over one orphan more either sets it aside with a "not placed" entry, or charges the first eligible node and logs "scheduled" and "rescheduled" to it. |
| ClusterModel.RescheduleNodeRescheduled | server_2.py:181-193 | Rescheduling one node, as the fold `RescheduleNode` does, keeps ids distinct, leaves that node empty, and loses or duplicates no pod. |
| ClusterModel.RescheduleAllNext | server_2.py:176-177 | Rescheduling one failed node more appends its registry, unplaced pods and log entries to the fold over the nodes before it. |
| ClusterModel.RescheduleAllRescheduled | server_2.py:176-177 | Rescheduling the failed nodes one after the other, as the fold `RescheduleAll` does, keeps ids distinct, empties each of them, and loses or duplicates no pod. |
| ClusterModel.RescheduledStep | server_2.py:177-178 | Rescheduling one more failed node after several composes into the rescheduling of all of them. |
| ClusterModel.SchedulePlacesPod | server_2.py:127-130 | A successful schedule changes only the chosen active node. That node gains exactly the pod, and a cluster in good standing stays so for a non-negative request. |
| ClusterModel.PlaceOnlyActiveChanged | server_2.py:127-130 | Placing on an eligible node changes only that active node's load. |
| ClusterModel.KillPodRemovesPod | server_2.py:229-233 | Killing a pod removes exactly that pod from the cluster. |
| ClusterModel.AllPodsRemove | server_2.py:290 | Deleting a node deletes the pods it hosts, and only those. |
| ClusterModel.ActiveUsedWithinTotal | server_2.py:91-94 | When every active node has `0 <= cpu_available <= cpu_total`, the used cpu of the active nodes lies between 0 and their total cpu. |
| ClusterModel.UtilizationIsFraction | server_2.py:87-95 | Utilization is in [0, 1] whenever no active node has negative cpu available or more available than its total. |
| ClusterModel.CapacityOkBounds | server_2.py:79 | A cluster in good standing meets the bounds under which utilization is a fraction. |
| ClusterModel.MarkedKeepsPodsAndCapacity | server_2.py:172-176 | Marking nodes failed moves no pod and keeps every node in good standing. |
| ClusterModel.StaleIdsExact | server_2.py:172-176 | An id is marked failed exactly when its node is active and its last heartbeat is more than 15 seconds old. |
| ClusterModel.StaleIdsOnlyActive | server_2.py:173 | With distinct ids, a node that was not active is never marked failed, so the monitor never reactivates or re-fails a node. |
| ClusterModel.HealthCheckEffects | server_2.py:170-178 | A whole health tick leaves the stale nodes registered, failed and empty, with their available resources unchanged. Nodes that were not active are untouched. Every pod is hosted or reported unplaced, and good standing is kept. |
| ClusterModel.ScaleTimesSpaced | server_2.py:144-164 | However long utilization stays high, two auto-scale node additions are at least 60 seconds apart, and the first is 60 seconds after the last one before the run. |
| ClusterModel.Recent | server_2.py:70-73 | The in-memory log never holds more than 50 entries. |
| ClusterModel.RecentAppend | server_2.py:70-84 | Appending to the last 50 entries and dropping the oldest when there are more than 50 gives the last 50 entries of the extended history. |
| Cluster.Where | server_2.py:108-118 | The comprehension over the registry yields the positions of the nodes that pass the filter, in order. |
| Cluster.LeastSlack | server_2.py:124 | The loop computes best_fit's `min`. |
| Cluster.MostRoom | server_2.py:126 | The loop computes worst_fit's `max`. |
| Cluster.Choose | server_2.py:106-126 | The scheduler's choice is the one `Select` specifies, so it has every property proved about `Select`. |
| Cluster.ClusterState.constructor | server_2.py:41-55 | Start-up state: no nodes, empty logs, counter 0, last scale time 0. |
| Cluster.ClusterState.LogEvent | server_2.py:66-74 | The entry is appended to the full history. The in-memory log stays the last 50 entries of that history and ends with the new entry. |
| Cluster.ClusterState.ClusterUtilization | server_2.py:87-95 | Returns Σ(cpu_total-cpu_available)/Σcpu_total over active nodes, and 0 when that total is 0. The result is in [0, 1] under the bounds. |
| Cluster.ClusterState.RecordUtilization | server_2.py:79-84 | Samples utilization ×100 at `now` into the bounded history. The result is in [0, 100] under good standing. |
| Cluster.ClusterState.SchedulePod | server_2.py:100-133 | With no eligible node or an unknown policy, nothing changes and None is returned. Otherwise only the chosen node changes: it gains the pod, its available cpu and memory drop by the request, its id is returned, and the placement is logged. |
| Cluster.ClusterState.AddNode | server_2.py:256-280 | Without cpu the request is refused with no change. Otherwise a node under the new id is registered: active, available = total, no pods, heartbeat simulated. |
| Cluster.ClusterState.RemoveNode | server_2.py:283-294 | An unknown id is refused (404) with no change. Otherwise the node is gone together with exactly its pods, and good standing is kept. |
| Cluster.ClusterState.ToggleSimulation | server_2.py:297-310 | An unknown id is refused (404) with no change. Otherwise only that node's simulation flag changes, and the change is logged. |
| Cluster.ClusterState.Heartbeat | server_2.py:356-370 | An unknown id is refused (404) with no change. Otherwise the node's heartbeat becomes `now` and it is active, and a reactivation is logged only when it had failed. |
| Cluster.ClusterState.LaunchPod | server_2.py:319-353 | Without cpu the request is refused and the counter is unchanged. Otherwise the counter grows by one and becomes the pod's id. Memory defaults to 4 and the network group to "default", and the affinity is kept only when non-empty. The pod is scheduled under the normalised policy. On success the selected node hosts it, the scheduling is logged, and pod, node and policy are reported. On failure the registry and the log are unchanged. |
| Cluster.ClusterState.AutoScaleTick | server_2.py:142-164 | A node is added exactly when utilization ≥ 0.8 and 60 seconds have passed since the last scale. Then exactly one default 8-cpu/16-memory node is registered and the scale time becomes `now`. Otherwise nothing changes. |
| Cluster.ClusterState.SimulateHeartbeatTick | server_2.py:198-201 | Every node with simulation on has its heartbeat set to `now`, and no other node changes. |
| Cluster.ClusterState.ChaosMonkey | server_2.py:210-238 | With no nodes, nothing changes. Below 0.5 it fails one active node and stops its simulation, leaving the node's pods in place, or changes nothing when none is active. Otherwise it kills one pod of a node hosting pods, giving back its request, or changes nothing when no node hosts a pod. The outcome is logged. |
| Cluster.ClusterState.KillActiveNode | server_2.py:215-225 | Fails one previously active node and turns off its simulation, or reports that no node is active and changes nothing. |
| Cluster.ClusterState.KillHostedPod | server_2.py:226-238 | Kills one pod of one node and gives back its request, or reports that no node hosts a pod and changes nothing. |
| Cluster.ClusterState.MarkStaleNodes | server_2.py:170-176 | Every active node whose heartbeat is more than 15 seconds old is marked failed, and each is logged, in registry order. Nothing else changes. |
| Cluster.ClusterState.OrphanPods | server_2.py:182-187 | The node's pods are taken off without giving back its resources, and nothing when the id is unknown. The cluster's pods plus the orphans are the pods before. |
| Cluster.ClusterState.ReplaceOne | server_2.py:189-193 | One orphan is placed first-fit exactly when a node is eligible. The first eligible node is then charged with it, and "scheduled" and "rescheduled" entries naming that node are logged. Otherwise nothing changes but the "not placed" entry. |
| Cluster.ClusterState.ReplaceNext | server_2.py:188-193 | Offering the next orphan moves the registry, the unplaced list and the log from the fold `ReplaceAll` over the orphans before it to the fold including it. |
| Cluster.ClusterState.ReplacePods | server_2.py:188-193 | The new registry, the unplaced orphans and the entries logged are exactly those of `ReplaceAll`: the orphans offered first-fit in order. Hence each orphan is hosted by an active node or returned as unplaced and logged, and only active nodes' loads change. |
| Cluster.ClusterState.RescheduleFromFailedNode | server_2.py:181-193 | The new registry, the unplaced pods and the entries logged are exactly those of `RescheduleNode`. Hence the node stays registered with no pods, and each of its pods ends up hosted by an active node or unplaced. |
| Cluster.ClusterState.HealthCheckTick | server_2.py:169-178 | One health tick: the log gains a "failed" entry per stale node, then the entries of `RescheduleAll` over the marked registry, and the registry and unplaced pods are that fold's. The stale nodes end failed and empty, and nodes that were not active are untouched. Every pod is hosted or unplaced, and good standing is kept. |
| Markdown.PieceAt | text_to_pdf_converter.py:24-44 | The text emitted for line `i` depends only on that line, its kind and whether a code block is open before it. |
| Markdown.FormatTextToMarkdown | text_to_pdf_converter.py:20-46 | The loop with its accumulator and code-block flag returns exactly `MarkdownOf(text)`. |
| Markdown.AppendLine | text_to_pdf_converter.py:25-44 | One iteration appends the line's piece and toggles the flag exactly on a fence line. |
| Markdown.KindOfTests | text_to_pdf_converter.py:25-44 | A line's kind follows the tests on its stripped form, in the source's order. |
| Markdown.PieceByKind | text_to_pdf_converter.py:26-44 | Fence or code lines give `line+"\n"`, headings `"\n"+line+"\n\n"`, bullets `line+"\n"`, paragraphs `line+"\n\n"`, and blank lines `"\n"`. |
| Markdown.PieceOfLine | text_to_pdf_converter.py:26-44 | The emitted text for a line follows the branches in order. A fence first, then any line in a code block, is kept with one newline even when it looks like a heading or bullet. |
| Markdown.BlankKind | text_to_pdf_converter.py:41-44 | Only a whitespace-only line is treated as blank. |
| Markdown.InCodeIsFenceParity | text_to_pdf_converter.py:26-27 | A code block is open exactly when an odd number of fence lines has been seen. |
| Markdown.CodeLineVerbatim | text_to_pdf_converter.py:26-33 | A fence line, and any line after an odd number of fences, is emitted verbatim with one newline. |
| Markdown.LineKept | text_to_pdf_converter.py:24-44 | Every non-blank line, and every line in a code block, appears unchanged (indentation included) at its offset in the output. |
| Markdown.LinesInOrder | text_to_pdf_converter.py:24-44 | Kept lines appear in input order, without overlap: a kept line ends before any later line starts. |
| Markdown.LinesOfEnds | text_to_pdf_converter.py:20 | After stripping and splitting, the first line starts, and the last line ends, with a non-space character. |
| Markdown.OutputSpan | text_to_pdf_converter.py:46 | Stripping the accumulated output cuts it exactly to the span from the first line's start to the last line's end. |
| Markdown.BlankMarkdown | text_to_pdf_converter.py:20-46 | A blank input converts to the empty string. |
| Markdown.MarkdownSpan | text_to_pdf_converter.py:20-46 | The result is exactly the accumulated output from the first line's start to the last line's end. The final strip removes only spacing, never part of a line, and the result is non-empty with no leading or trailing whitespace. |
| Markdown.KeptWithinSpan | text_to_pdf_converter.py:24-44 | A kept line lies between where the first line starts and where the last line ends in the accumulated output. |
| Markdown.SpanKeepsLine | text_to_pdf_converter.py:24-46 | The accumulated output cut from the first line's start to the last line's end holds every kept line unchanged, at its offset counted from the first line's start. |
| Markdown.OutputKeepsLine | text_to_pdf_converter.py:24-46 | For lines whose first starts, and whose last ends, with a non-space character, the stripped output holds every kept line unchanged at that place. |
| Markdown.MarkdownKeepsLine | text_to_pdf_converter.py:20-46 | Every line the converter keeps (not blank, or inside a code block) appears unchanged in its result, indentation included, at the line's offset counted from where the first line starts. |
| Scraper.BlockParts | github_scraper_new.py:104-110 | A block is the field lines, Repository through Contributors, then the README line, the README, a blank line and the separator. |
| Scraper.SaveToText | github_scraper_new.py:98-110 | The successive writes produce exactly `SavedText(data)`. |
| Scraper.SavedTextStartsWithHeader | github_scraper_new.py:101 | The file always starts with "GitHub Repositories Data\n\n", and is only that for an empty list. |
| Scraper.BlockInPlace | github_scraper_new.py:103-110 | Repository `i`'s block sits right after the header and the blocks before it. |
| Scraper.BlocksInOrder | github_scraper_new.py:103 | Blocks follow input order without overlap. |
| Scraper.BlockEnds | github_scraper_new.py:110 | Every block ends with "\n\n==========\n\n". |
| Scraper.SavedTextEndsWithSeparator | github_scraper_new.py:110 | The file of a non-empty list ends with that separator. |
| Refiner.IndexOf | src/utils/github_refiner_llm.py:38 | `lines.index(line)` is the first position holding the line: it holds the line, and no earlier position does. |
| Refiner.ParseRepositories | src/utils/github_refiner_llm.py:21-45 | The loop over the sections returns exactly `Parse(content)`. |
| Refiner.ParseSectionLines | src/utils/github_refiner_llm.py:29-40 | The loop over one section's lines builds exactly `ParseLines`. |
| Refiner.LastMatch | src/utils/github_refiner_llm.py:32-40 | The last line with a prefix starts with it, no later line does, and without a match no line does. |
| Refiner.PrefixesExclusive | src/utils/github_refiner_llm.py:33-37 | No line starts with two of the field prefixes, so the branch order never matters. |
| Refiner.ParseLinesKeys | src/utils/github_refiner_llm.py:32-40 | Later lines overwrite earlier ones. Each key holds the value of the last line with its prefix, even one inside the README, and is missing when no line has that prefix. |
| Refiner.ParseSectionSome | src/utils/github_refiner_llm.py:26-43 | A section yields a record exactly when it is not blank and some line starts with a field prefix. |
| Refiner.KeptAppend | src/utils/github_refiner_llm.py:42-43 | The records kept from two runs of sections are those of each run, in order. |
| Refiner.ParseSectionsAppend | src/utils/github_refiner_llm.py:23-45 | Records keep section order: a file's records are its sections' records, concatenated. |
| Refiner.FormatOutput | src/utils/github_refiner_llm.py:75-92 | The loop returns exactly `FormatOutputOf(repositories)`, a report or the `KeyError` it raises. |
| Refiner.EntriesErrorSticks | src/utils/github_refiner_llm.py:83-84 | Once a record raises, the report fails with that same error. |
| Refiner.FormatOutputTitle | src/utils/github_refiner_llm.py:76-92 | Every report begins with "# Enhanced GitHub Repository Analysis\n". |
| Refiner.EntriesErr | src/utils/github_refiner_llm.py:79-90 | The records up to `k` fail exactly when one of them is reported and lacks its name or URL. |
| Refiner.FormatOutputFails | src/utils/github_refiner_llm.py:79-90 | `format_output` raises `KeyError` exactly when some record it reports lacks its name or its URL. |
| Refiner.FormatOutputFirstError | src/utils/github_refiner_llm.py:83-84 | The raised key is that of the first raising record, "name" before "url". |
| Refiner.ReportedOnly | src/utils/github_refiner_llm.py:80-81 | The kept records all have a README that is neither empty nor "No Readme". |
| Refiner.SkippedContributeNothing | src/utils/github_refiner_llm.py:79-81 | Skipped records contribute nothing: the report equals the report of the reported records alone. |
| Refiner.EntriesAppend | src/utils/github_refiner_llm.py:79-90 | The report lines of two runs of records are those of the first run, then those of the second. The first error wins. |
| Refiner.FormatOutputOne | src/utils/github_refiner_llm.py:76-92 | One reported record without analysis gives the title, "## name", "Repository URL: url\n" and "\n---\n", joined by newlines. |
| RoundTrip.SectionSplit | github_scraper_new.py:101-110 | The refiner sees a block's section as the header lines (first block only), the field lines, the README line and the README's own lines. |
| RoundTrip.ParseLinesOf | src/utils/github_refiner_llm.py:32-40 | Lines laid out as a block reads as the name, URL and README they hold. |
| RoundTrip.ParseSectionOf | src/utils/github_refiner_llm.py:25-43 | A safe repository's section, with or without the header before it, reads back as its name, URL and stripped README. |
| RoundTrip.LeadAlone | src/utils/github_refiner_llm.py:25-43 | The header alone, and the empty text, contribute no record. |
| RoundTrip.SplitAfterClean | src/utils/github_refiner_llm.py:23 | After a piece that holds no separator and ends with a blank line, `split` finds the next separator where the scraper wrote it. |
| RoundTrip.SplitBlocks | github_scraper_new.py:101-110 | The saved file splits into the header glued to the first section, then each other section, then the empty tail. |
| RoundTrip.SectionClean | github_scraper_new.py:104-110 | A safe repository's section holds no separator and ends with a blank line. |
| RoundTrip.KeptSections | src/utils/github_refiner_llm.py:25-43 | The sections of safe repositories read back, in order, as their records. |
| RoundTrip.SavedTextReadsBack | github_scraper_new.py:98-110 | `parse_repositories(save_to_text(rs))` returns each safe repository's name, URL and README, one record each, in order. |
| RoundTrip.SaveThenParse | input_validator.py:121-127 | For repositories that all satisfy `Safe`, the pipeline writes the scraper's file and parses it back into exactly those records. The same hand-over is at src/streamlit_app.py:128-133. |
| InputValidation.NameRun | input_validator.py:36 | The run of `[\w-]` characters at the start is maximal: it is all name characters, and the next character is not one. |
| InputValidation.NameRunLongest | input_validator.py:34-36 | No run of name characters at the start is longer. |
| InputValidation.MatchesUsernameIff | input_validator.py:36 | The scan accepts exactly what `^[\w-]+$` accepts, Python's `$` before a final newline included. |
| InputValidation.MatchesTailIff | input_validator.py:34 | The scan after the prefix accepts exactly what `[\w-]+/?.*$` accepts. |
| InputValidation.PrefixesDisjoint | input_validator.py:34 | No text starts with two different ones of the four link prefixes `http://github.com/`, `https://github.com/`, `http://www.github.com/`, `https://www.github.com/`. |
| InputValidation.MatchesLinkIff | input_validator.py:34 | The link scan accepts exactly what `^https?://(?:www\.)?github\.com/[\w-]+/?.*$` accepts. |
| InputValidation.LowerNa | input_validator.py:30 | `profile.lower() == 'na'` holds exactly for "na", "nA", "Na" and "NA". |
| InputValidation.ValidateGithubProfileSpec | input_validator.py:27-38 | A profile is accepted exactly when it is "na" in any case, a GitHub profile link, or a bare username. |
| InputValidation.EmptyProfileRejected | input_validator.py:38 | The empty profile is rejected. |
| InputValidation.ValidateCvFileSpec | input_validator.py:40-50 | A CV is accepted exactly when it is "na" in any case, or the file exists and its lower-cased last four characters are ".txt" or ".pdf". |
| InputValidation.ValidateCvFileCaseBlind | input_validator.py:43-50 | The CV check does not depend on the path's letter case. |
| InputValidation.UsernameOfLink | input_validator.py:96-97 | For a profile link, the username is the whole greedy `[\w-]+` run after the prefix: non-empty, name characters only, and not extendable. |
| InputValidation.StoredBareUsername | input_validator.py:98-101 | A bare username that is no link and not "na" is stored as "github.com/" + the answer as typed. |
| InputValidation.StoredProfileShape | input_validator.py:89-101 | A blank or invalid answer is asked again. A stored profile is "na" for the skip answers, and otherwise "github.com/" + a non-empty username. For a link the username is made of name characters. A bare answer is stored as typed, so a final newline that `$` lets through is kept. That case is a fact about the function alone: `input()` drops the newline, so the prompt never produces it. |
| InputValidation.BareAnswerKeepsNewline | input_validator.py:89-101 | The bare answer "ab\n" passes `^[\w-]+$` and is stored as "github.com/ab\n", newline included. This is about the function only: `input()` never returns a final newline, so the prompt cannot produce this answer. |
| InputValidation.InputValidator.constructor | input_validator.py:13-25 | A fresh validator has all four inputs and all four paths unset. |
| InputValidation.InputValidator.AnswerGithubProfile | input_validator.py:89-134 | An accepted answer stores `StoredProfile` under "github_profile" and changes no other input. When the answer is not "na" and the fetch yields repository data, the GitHub and refined output paths are set to "output_github.txt" and "refined_output_github_llm.txt" joined to the script directory. Otherwise both paths keep their values. A rejected answer changes nothing. |

## Left out

- HTTP, Flask routes, JSON parsing, status codes other than the three refusals, SocketIO emits, the dashboard page and the CSV report of `server_2.py` are not modelled.
- The request-level "missing node_id" (400) checks of remove, toggle and heartbeat are not modelled: the id is a parameter.
- The SQLite sink (`init_db`, `insert_event_log`, `insert_utilization`) is not modelled; the ghost histories `events` and `samples` stand for what it receives.
- Threads, `time.sleep` loops and the locks are not modelled. Each background thread is one tick method, and each locked block is one atomic step.
- Every clock read within one atomic step is the single parameter `now`. `AutoScaleTick` stamps the new node with it although the server reads the clock again for that node, and `SimulateHeartbeatTick` stamps every simulated node with the same `now` although the server reads the clock once per node.
- `simulate_pod_usage` and the pods' `cpu_usage` field are not modelled: they are random floats that nothing in the core reads.
- Cluster.ClusterState.LogEvent: log entries are structured `Event` values, not the rendered "[timestamp] message" strings, because `strftime` and the local clock are out of scope.
- Cluster.ClusterState.AddNode: cpu and memory are typed `int`. The server stores the raw JSON values, so it also accepts floats, and those are not modelled.
- Cluster.ClusterState.LaunchPod: the pod id is the counter value itself, not the string "pod_N". The request fields are typed (`int` cpu and memory, string policy, group and affinity), not arbitrary JSON. The affinity test covers only strings, where Python's truthiness means "non-empty".
- Cluster.ClusterState.ChaosMonkey: its contract says that some active node, or some pod of some hosting node, is killed. It does not say which one, because the two random choices are parameters taken modulo the list length, and the statement about which one is left out of the contract.
- Cluster.ClusterState.RecordUtilization: the percentage is exact; Python's float arithmetic is not modelled.
- Utilization, heartbeat times and the scale time are exact `real` values, not floats.
- The `socketio.emit` alert after each rescheduling is not modelled.
- The text files the scraper writes and the refiner reads are strings passed between functions; file I/O, `read_github_data` and encodings are not modelled.
- `analyze_repository_with_llm` (an OpenAI call) is not modelled; a record's `llm_analysis` is an optional input to `format_output`.
- `get_repo_data` and `get_user_repositories` (HTTP scraping) are not modelled. The record type holds what `save_to_text` reads: name, URL, the four counts and the README.
- The interactive prompting of `collect_inputs` (job description, company name, the confirmation), its network calls and `to_json` are not modelled. The GitHub answer's validation, username extraction and storage are modelled.
- InputValidation.InputValidator.AnswerGithubProfile: the fetch of the repositories is the boolean parameter `fetched`. Writing the scraped file, the LLM analysis and writing the report are not performed; only their effect on the two output paths is modelled. A `KeyError` from `format_output` is not modelled either; the source raises it after both paths are set.
- `\w` is modelled as ASCII letters, digits and '_', and `lower()` on ASCII only. Python's Unicode `\w` and case mapping are not modelled.
- `os.path.exists` is a boolean parameter of the CV check.
- RoundTrip.SavedTextReadsBack: its precondition `Safe` is stronger than needed. Names and URLs must hold no '='. The separator must not occur in the README followed by "\n\n", so a README ending in "==========" is excluded: there the scraper's own text would contain the separator. Names and URLs must be single-line, unpadded and free of their own prefix. README lines must not start with a field prefix.
- RoundTrip.SaveThenParse: it inherits the `Safe` precondition of `RoundTrip.SavedTextReadsBack`. The pipeline itself applies no such check, so for other repositories the round trip is not claimed.
- The capacity invariant `CapacityOk` is an inequality, and holds only for non-negative requests: the server checks no sign, and rescheduling leaks a failed node's capacity.
- `convert_text_to_pdf`, the markdown and PDF renderers, the PDF-to-text wrapper, the crewAI agent scripts and the Streamlit UI are not part of this model.
