# GitHubArchiver, modelled in Dafny

GitHubArchiver is a single script. It runs as `main.py <api_base> <out_dir>` and
works in these steps:

1. It cleans the API base address.
2. It prompts until it reads a non-empty API token.
3. It walks the paginated listing `/user/repos?page=n` and collects every
   `(owner.login, name)` pair into a set.
4. It creates one directory per owner under `out_dir`.
5. It splits the repositories among four worker processes by index modulo 4.
   Each worker downloads `/repos/{owner}/{repo}/zipball` into
   `out_dir/owner/repo.zip`.

This project models the deterministic logic of those steps. The network,
the keyboard and the filesystem are replaced by values:

- the prompt's answers are a sequence of strings;
- the listing responses are a sequence of pages (status, entries, error message);
- the archive download is a function from URL to bytes;
- the output tree is an object holding a set of directories and a map from path to file contents.

Process exits are returned as results.

Modules, one per step of the script (all in `main.py`):

- `Address` (`address.dfy`): `rstrip("/")` and the `https://` prefix.
- `Prompt` (`prompt.dfy`): `ask_user`, the loop that waits for a non-empty answer.
- `Targets` (`targets.dfy`): the repository pair, `os.path.join` on POSIX, the
  owner directory, the archive path and URL, and the owner set.
- `Discovery` (`discovery.dfy`): the pagination loop and its reference definition `Discover`.
- `Sharding` (`sharding.dfy`): the slice `repositories[p::4]` and the submission loop.
- `Disk` (`disk.dfy`): directory creation, file writes, and the worker `download`.
- `Archiver` (`archiver.dfy`): the main block end to end.
- `Wrappers` (`wrappers.dfy`): `Option`.

Observations about the code that the model keeps as written:

- Every trailing `/` is stripped, not just one.
- The scheme test is `startswith('http')`. So `httpbin.org` is left without a
  scheme, and `ftp://host` becomes `https://ftp://host`.
- An argument made only of slashes (or empty) is cleaned to `https://`, which
  does end with `/`. Cleaning that once more gives `https:`. So "the cleaned
  address never ends with `/`" and "cleaning is idempotent" hold exactly for
  arguments containing some character other than `/`
  (`NormaliseNoTrailingSlash`, `NormaliseIdempotent`, `NormaliseOnlySlashes`).
- The status is checked before the emptiness of a page. An empty page with a
  non-200 status therefore aborts with code 2 instead of ending discovery.
- A repository is called well-formed when its owner is non-empty and neither
  owner nor name contains '/', which holds for every GitHub login and repository name.
  The path facts need it: `("", "a/x")` and `("a", "x")` would share
  `out/a/x.zip`, and which archive survives would depend on worker order.
- The worker pool swallows a worker's exception. A worker whose `open` fails
  (its owner directory is missing) therefore stops at that repository, and the
  other workers carry on.

## Model

| member | source | states |
|---|---|---|
| Address.StripTrailingSlashes | main.py:36 | the result is a prefix of the input, does not end with '/', and only '/' follows it in the input |
| Address.StripTrailingSlashesUnique | main.py:36 | those three properties determine the stripped text uniquely |
| Address.StripEmptyIffAllSlashes | main.py:36 | stripping leaves nothing exactly when the input is all slashes |
| Address.Normalise | main.py:36-38 | the cleaned address starts with "http"; it ends with '/' exactly when the argument is all slashes |
| Address.NormalisePrefixesExactlyWithoutScheme | main.py:37-38 | "https://" is prepended exactly when the stripped address does not start with "http"; otherwise the stripped address is kept unchanged |
| Address.NormaliseNoTrailingSlash | main.py:36-38 | for an argument with a non-slash character the cleaned address never ends with '/' |
| Address.NormaliseIdempotent | main.py:36-38 | for such arguments cleaning twice equals cleaning once |
| Address.NormaliseOnlySlashes | main.py:36-38 | "/" is cleaned to "https://", which cleans further to "https:" |
| Prompt.FirstNonEmpty | main.py:19-23 | the answer taken is non-empty, appears in the input after only empty answers, and is absent exactly when all answers are empty |
| Prompt.FirstNonEmptyAt | main.py:19-23 | a non-empty answer preceded only by empty ones is the one taken |
| Prompt.AskUser | main.py:19-23 | the loop returns the first non-empty answer, never an empty one |
| Targets.PathJoin | main.py:81 | `os.path.join` of two parts on POSIX; the result is at least as long as the second part and at most one separator longer than both |
| Targets.PathJoinShape | main.py:81 | an absolute second part replaces the first; otherwise the second part follows the first after exactly one '/', none added when the first is empty or ends in '/'; the result always ends with the second part |
| Targets.OwnerDir | main.py:81 | `os.path.join(out_dir, owner)`: at least as long as the owner and at most one separator longer than both parts |
| Targets.TargetPath | main.py:94 | `os.path.join(out_dir, owner, f"{repo}.zip")`: at least as long as `repo.zip` and at most the parts plus two separators |
| Targets.ZipUrl | main.py:91 | the f-string `{base}/repos/{owner}/{repo}/zipball`: 16 characters longer than the three parts together |
| Targets.ZipUrlShape | main.py:91 | the URL starts with `{base}/repos/{owner}/` and ends with `/{repo}/zipball` |
| Targets.Owners | main.py:79 | an owner is in the set exactly when some repository has it; there are no more owners than repositories |
| Targets.TargetPathShape | main.py:94 | a well-formed repository's archive is `out_dir/owner/name.zip`, with no doubled '/' when `out_dir` ends in '/'; it lies in the owner directory |
| Targets.ZipUrlInjective | main.py:91 | distinct well-formed repositories have distinct `{base}/repos/{owner}/{repo}/zipball` URLs |
| Targets.TargetPathInjective | main.py:94 | distinct well-formed repositories have distinct archive paths, so no archive overwrites another |
| Targets.IllFormedTargetsClash | main.py:94 | without well-formedness the injectivity fails: `("", "a/x")` and `("a", "x")` both write `out/a/x.zip` |
| Discovery.Discover | main.py:50-73 | the outcome of the loop from the page that stops it; a failure carries exit code 2 and the message of a page that was not 200; completion needs a page that is 200 and empty |
| Discovery.StopIndex | main.py:60-71 | the index of the first page that is not 200 or is empty; every earlier page is 200 and non-empty |
| Discovery.StopIndexAt | main.py:60-71 | a page that stops the loop, after pages that do not, is where the loop stops |
| Discovery.InCollected | main.py:65-68 | a pair is collected exactly when some page lists it |
| Discovery.DiscoverRepositories | main.py:50-73 | the loop's outcome equals Discover(pages); it requests exactly the pages up to and including the one that stops it |
| Discovery.DiscoverComplete | main.py:52-73 | when all pages up to the first empty one are 200, the result is exactly the union of the pairs of the pages before it |
| Discovery.DiscoverFails | main.py:60-62 | when some page up to the first empty one is not 200, discovery fails with exit code 2 and the first failing page's message, and yields no set |
| Discovery.LaterPagesIgnored | main.py:70-71 | replacing every page after the stopping page changes nothing |
| Discovery.CollectedAtMostEntries | main.py:50-68 | a pair recurring within or across pages is counted once: there are never more repositories than entries |
| Discovery.RepeatedEntriesAddNothing | main.py:65-68 | a page listing only pairs already found leaves the set unchanged |
| Discovery.SingleRepositoryScenario | main.py:52-73 | `[(a, r1)]` then `[]` discovers exactly `{(a, r1)}` |
| Discovery.BadCredentialsScenario | main.py:57-62 | a 403 "Bad credentials" page fails with exit code 2 and that message |
| Sharding.Shard | main.py:102 | position k of shard p is element `p + 4k`, and no index `p + 4k` below the length is left out |
| Sharding.ShardIsResidueClass | main.py:100-102 | the element at index i is in shard `i % 4`, at position `i / 4` |
| Sharding.ShardPositionsPartitionIndices | main.py:100-102 | position k of shard p is index i exactly when `p == i % 4` and `k == i / 4`, so the shards are disjoint by index and keep the original order |
| Sharding.ShardsCoverElements | main.py:100-102 | something is in the sequence exactly when it is in one of the four shards |
| Sharding.ShardsDisjoint | main.py:100-102 | in a sequence without repetitions, the element at index i is in shard p exactly when `p == i % 4` |
| Sharding.ShardLength | main.py:102 | shard p has `len / 4` elements, plus one when `p < len % 4` |
| Sharding.ShardsBalanced | main.py:102 | shard sizes differ by at most one, lower shards never being smaller |
| Sharding.ShardsCoverLength | main.py:100-102 | the four shard sizes sum to the length |
| Sharding.Shards | main.py:100-102 | exactly four tasks, task p being shard p |
| Sharding.PlanShards | main.py:99-102 | task p submitted to the pool is `repositories[p::4]`, for p from 0 to 3 |
| Disk.DownloadedKeeps | main.py:87-95 | a worker changes only its repositories' archive paths |
| Disk.Downloaded | main.py:87-95 | one worker over its shard, writing each archive in turn; its contract states that no file is ever removed (DownloadedStopsAt states where it stops, DownloadedWrites what it writes) |
| Disk.DownloadedStopsAt | main.py:88-95 | when the owner directory of repository k is missing and those before it exist, the worker leaves exactly what the first k repositories alone would leave: nothing after k is written |
| Disk.DownloadedWrites | main.py:87-95 | when every repository of the shard is well-formed and has its owner directory, each repository's archive holds the body fetched from its URL |
| Disk.ShardOrderIrrelevant | main.py:99-105 | when every repository of both shards is well-formed and has its owner directory, the output tree is the same whichever of the two workers runs first |
| Disk.DownloadedAll | main.py:99-105 | the workers run one after another over their shards; no file is ever removed |
| Disk.DownloadedAllWrites | main.py:99-105 | when every repository of every shard is well-formed and has its owner directory, after all workers each of them has its download at its path |
| Disk.DownloadedAllKeeps | main.py:99-105 | after all workers, every path that is no repository's target is unchanged |
| Disk.Disk.MakeDir | main.py:80-83 | creating a directory adds it to the existing ones; one that already exists is no error and changes nothing |
| Disk.Disk.MakeOwnerDirs | main.py:79-83 | the directories become the old ones plus one per owner; files are untouched |
| Disk.Disk.WriteFile | main.py:94-95 | the write fails exactly when the directory is missing; otherwise the file at `join(dir, name)` is created or overwritten with the body |
| Disk.Disk.Download | main.py:87-95 | the worker leaves the files equal to Downloaded of the old files: archives written in shard order, stopping at the first missing owner directory |
| Archiver.SetToSequence | main.py:78 | `tuple(set)` in any order: every element appears exactly once and nothing else appears |
| Archiver.RunWorkers | main.py:99-105 | the four shards are run in turn over the files; directories are untouched |
| Archiver.ArchivesWritten | main.py:78-105 | when every discovered repository is well-formed and has its owner directory, then for any ordering of the discovered set every discovered repository's archive holds its download |
| Archiver.OnlyArchivesTouched | main.py:87-105 | no file other than a discovered repository's archive changes |
| Archiver.Export | main.py:78-105 | the directories become the old ones plus exactly one per discovered owner; each archive holds its download; every other file is unchanged |
| Archiver.Run | main.py:26-107 | exit 1 for a wrong argument count, exit 2 on a failed listing page (both leave the disk untouched), exit 0 after the export otherwise, with the archive URLs built on the cleaned address |

## Left out

- HTTP: `requests.get` and `response.json()` (main.py:57-58, main.py:93) are not modelled. The listing responses are a sequence of pages and the archive download is a function of the URL. Malformed JSON and an error body without `message` are outside the model. The response is also taken to depend on the URL alone.
- The listing URL text `{base}/user/repos?page={n}` (main.py:54): page n is position n-1 of the page sequence. The decimal rendering of n is not modelled.
- The request headers (main.py:44-46): they only travel over the network, so the token is read but not used by the model.
- Logging (main.py:12-14 and the log calls): it has no behaviour to model.
- `input()` (main.py:22): the prompt text is only displayed. When the answers run out, Run returns OutOfInput, where Python would raise EOFError.
- Run: the outcome OutOfPages stands for a page sequence that ends before an empty page. The real loop would go on requesting pages.
- `os.mkdir` failures other than an existing directory (missing parent, no permission; main.py:80-83) are not modelled: MakeDir always succeeds.
- File writes (main.py:94-95): the only failure modelled is a missing owner directory. It ends that worker, as the swallowed exception does. Other I/O errors are not modelled.
- The process pool (main.py:99-105): the model runs the four workers one after another. When every repository of both shards is well-formed and has its owner directory, ShardOrderIrrelevant shows that two workers give the same tree in either order. The interleaving of single writes between processes is not modelled.
- The process start method: the model assumes `fork`, where each worker inherits `download`, `github_server`, `header` and `out_dir` from the main block (main.py:26-95). Under `spawn` or `forkserver` a worker re-imports the script without running that block. Unpickling the task then fails to find `download`, and the uncaught error kills the worker. The pool replaces the worker, but the lost task is never completed, so `pool.join()` (main.py:105) never returns. No archive is written, "Done!" is never logged, and the script does not exit. That behaviour is not modelled.
- Sharding.Shard: the slice step is fixed at the pool size 4 (main.py:16). Other pool sizes are not modelled.
- Archiver.Run: archive contents are promised only when every discovered owner is non-empty and no owner or name contains '/'. GitHub guarantees this. Without it, two repositories could share an archive path.
- Archiver.Export: the same well-formedness condition applies to its archive-contents clause.
