# orcatrjvis: naming and alignment of imaginary-mode records

orcatrjvis walks a directory tree for ORCA log files (`.out`). For each log it
takes the imaginary frequencies the ORCA parser reports. It has `orca_pltvib`
write one trajectory per mode and renders each trajectory into a GIF with Jmol
and ImageMagick. It then collects one `ImgVib(fn, index, value, movie)` record
per mode, keyed by log path, for a YAML dump and an HTML report.

The mode indices, the frequency values and the movie paths come from three
independent places. They are joined by position only and never checked against
each other. This project models that joining in Dafny: the index policy, the
file and directory names, and the positional zips. It then proves that the
three sequences line up, that the padding preserves the index, and which names
can collide.

Modules, one per concern:

- `Decimal` (`decimal.dfy`): Python's `str(i)` for `i >= 0`, `str.zfill`, and
  the value of a digit string.
- `Paths` (`paths.dfy`): `os.path.split` and two-argument `os.path.join` on
  POSIX paths. This includes the stripping of trailing slashes from the head
  that `split` does.
- `Video` (`video.dfy`): the paths `video_from_trajectory` derives: the
  output directory `trj<i>`, the frame stem `movie`, the script `animate.spt`
  and the movie `trj<i>.gif`.
- `Vibs` (`vibs.dfy`): `vibs_from_orca_log`. Indices start at 6. Trajectory
  names are `<fn>.v<zfill(3)>.xyz`. The zips build the records.
- `Results` (`results.dfy`): the loop in `run` that fills `imgvib_dict`.

Frequency values are an opaque type parameter `V`. The parser's output is a
given `OrcaLog<V>(fn, imgVibFreqs)`, and in `Results` the parser is a function
parameter from log path to `OrcaLog<V>`. The list of discovered log paths is a
given sequence.

## Model

| member | source | states |
|---|---|---|
| `Decimal.Dec` | orcatrjvis.py:113 | `str(ind)` of a non-negative index is a non-empty digit string with no leading zero; it has one digit exactly when the index is below 10 |
| `Decimal.ValueOfDec` | orcatrjvis.py:113 | reading the decimal text of an index back gives the index |
| `Decimal.DecOfValue` | orcatrjvis.py:113 | every digit string without a leading zero is the decimal text of the number it denotes, so `str` and reading back are inverse |
| `Decimal.DecInjective` | orcatrjvis.py:113 | two indices have the same decimal text exactly when they are equal |
| `Decimal.ZFillShape` | orcatrjvis.py:116 | `zfill(w)` returns a string of length `max(w, len)`; the original is a suffix of the result and everything before it is '0', after the sign when there is one; a string already `w` long comes back unchanged, never truncated |
| `Decimal.ValueIgnoresLeadingZeros` | orcatrjvis.py:116 | putting '0's in front of a digit string does not change the number it denotes |
| `Decimal.ValueOfZFill` | orcatrjvis.py:116 | zero-filling a digit string gives a digit string that denotes the same number |
| `Paths.TailStart` | orcatrjvis.py:61 | the cut point of `os.path.split` is just after the last '/', or 0 when there is none; nothing after it is a '/' |
| `Paths.StripTrailingSlashes` | orcatrjvis.py:61 | the head `os.path.split` strips is a prefix of the original that does not end in '/', and only slashes were removed |
| `Paths.SplitParts` | orcatrjvis.py:61 | the tail of `os.path.split` is everything after the last '/' and has no '/'; the head is a prefix of the path and is empty, all slashes, or does not end in '/'; only slashes lie between head and tail; a head made only of slashes is kept whole; the head is empty exactly when the path has no '/' |
| `Paths.JoinParts` | orcatrjvis.py:63 | the joined path ends with the second part; an absolute second part replaces the first; a relative one follows the first part after exactly one '/' when the first part is non-empty and does not end in '/', and directly otherwise |
| `Paths.SplitAppend` | orcatrjvis.py:61 | appending slash-free text to a path keeps its directory part and extends its last component |
| `Paths.JoinNameIsDirPart` | orcatrjvis.py:63 | a path joined with a slash-free name is a valid directory part itself |
| `Paths.SplitJoin` | orcatrjvis.py:61-63 | splitting `join(d, name)` for a directory part `d` and a slash-free name gives back `(d, name)` |
| `Video.VideoLayout` | orcatrjvis.py:60-81 | the output directory is `trj<ind>` beside the trajectory; the frame stem `movie`, the script `animate.spt` and the movie `trj<ind>.gif` lie directly inside that directory |
| `Video.MovieIdentity` | orcatrjvis.py:77 | two trajectories get the same movie path exactly when they share a directory and an index |
| `Video.DirIdentity` | orcatrjvis.py:63 | two trajectories get the same output directory exactly when they share a directory and an index |
| `Vibs.Range` | orcatrjvis.py:112 | `range(lo, hi)` has `max(0, hi - lo)` elements, the k-th being `lo + k` |
| `Vibs.IndexRange` | orcatrjvis.py:112 | the mode indices for `n` imaginary frequencies are exactly `6, ..., 6 + n - 1`, in strictly ascending order, `n` of them |
| `Vibs.Pad3Shape` | orcatrjvis.py:116 | `str(i).zfill(3)` has length `max(3, len(str(i)))`, ends with `str(i)` after only '0's, and still denotes `i` |
| `Vibs.Pad3Examples` | orcatrjvis.py:116 | index 6 pads to "006", 42 to "042", and 1234 stays "1234" |
| `Vibs.Pad3Injective` | orcatrjvis.py:116 | distinct indices have distinct padded texts |
| `Vibs.TrjNameSplit` | orcatrjvis.py:116 | a trajectory lies in the same directory as its log: its directory part is the log's, and its base name is the log's base name followed by `.v<pad>.xyz` |
| `Vibs.TrjNameInjective` | orcatrjvis.py:116 | for one log, the trajectory name `<fn>.v<pad>.xyz` determines its index |
| `Vibs.TrjFnsDistinct` | orcatrjvis.py:113-116 | the trajectory name list is as long as the index list, and its names are pairwise distinct exactly when the indices are |
| `Vibs.MovieFns` | orcatrjvis.py:118-119 | one movie per (trajectory, index) pair, in order, as many as the shorter list has |
| `Vibs.Zip3` | orcatrjvis.py:121-127 | the record list has length `min(len(indices), len(values), len(movies))`, and the k-th record holds the k-th element of each list |
| `Vibs.MoviesOfModes` | orcatrjvis.py:116-119 | zipping the trajectory names with the indices they were built from gives, position by position, the movie of each index's mode |
| `Vibs.VibsFromOrcaLog` | orcatrjvis.py:106-128 | one record per imaginary frequency: the k-th has the parser's `fn`, index `6 + k` and the k-th frequency; indices strictly ascend, with no sorting or deduplication |
| `Vibs.VibMovies` | orcatrjvis.py:112-127 | the k-th record carries the movie of mode `6 + k`: the positional zips keep indices, trajectories and movies aligned |
| `Vibs.ModeMovieLocation` | orcatrjvis.py:113-119 | the movie of mode `i` splits into `join(dir of log, "trj<i>")` and `"trj<i>.gif"`; the log's base name plays no part |
| `Vibs.ModeMovieCollision` | orcatrjvis.py:116-119 | two logs get the same movie for modes `i` and `j` exactly when the logs share a directory and `i == j` |
| `Vibs.ModeMovieInjective` | orcatrjvis.py:116-119 | within one log, different mode indices never share a movie path |
| `Vibs.AlignedMoviesDistinct` | orcatrjvis.py:118-127 | records whose k-th movie is that of mode `6 + k` of one log have pairwise distinct movies |
| `Vibs.VibMoviesDistinct` | orcatrjvis.py:118-127 | within one log, a movie path identifies the record it belongs to: no two records share one |
| `Vibs.TrjNameExample` | orcatrjvis.py:116 | mode 6 of `calc/a.out` has trajectory `calc/a.out.v006.xyz` |
| `Vibs.TrjDirExample` | orcatrjvis.py:116 | that trajectory's directory part is `calc`, the log's own directory |
| `Vibs.MovieExample` | orcatrjvis.py:63-77 | mode 6 of `calc/a.out` is rendered to `calc/trj6/trj6.gif` |
| `Vibs.CollisionExample` | orcatrjvis.py:63-77 | `calc/a.out` and `calc/b.out` send mode 6 to the same movie path |
| `Results.AssignAllContents` | orcatrjvis.py:95-97 | assigning each key in turn leaves exactly the keys given, each mapped to its own value, even when keys repeat |
| `Results.AssignAllSize` | orcatrjvis.py:95-97 | the resulting dictionary has at most one entry per key, and exactly one per key when no key repeats |
| `Results.AssignEach` | orcatrjvis.py:95-97 | assigning each key in turn gives a map whose keys are exactly the keys given, each mapped to its own value; a repeated key overwrites, so the map has as many entries as there are keys exactly when no key repeats |
| `Results.CollectResults` | orcatrjvis.py:93-97 | `imgvib_dict` has exactly the discovered log paths as keys, each mapped to that log's own record list (never a merge of two); it has one entry per path exactly when no path repeats |

## Left out

- External programs: `orca_pltvib` (orcatrjvis.py:114-115), `jmol -n` (orcatrjvis.py:74-75) and `convert` (orcatrjvis.py:78-79). Their exit codes are not checked and their command lines add nothing to the alignment.
- Filesystem effects: `os.mkdir` with `FileExistsError` ignored (orcatrjvis.py:64-67), the script, YAML and HTML writes (orcatrjvis.py:71-72, 86-87, 100-101), and the `glob` of PNG frames, whose order is unspecified (orcatrjvis.py:76). Only the paths involved are modelled.
- The Jinja templates for the Jmol script and the HTML report (orcatrjvis.py:18-48). The frame-number padding in the Jmol script runs inside Jmol, not Python.
- The ORCA log parser and `search_files_with_ext` (orcatrjvis.py:14-15, 93-94, 111) are library code that is not part of this model. The parser's `fn` and frequency list are given inputs, and so is the list of log paths. Whether the parser's `fn` equals the log path is not known, so the two are kept apart.
- `float(value)` (orcatrjvis.py:123) is floating point; values are an opaque type `V`.
- `argparse` handling (orcatrjvis.py:53-57), the YAML dump and `create_report`.
- `Decimal.Dec` covers non-negative integers only. Mode indices start at 6, so `str` never sees a negative index here.
- `Paths.Split` and `Paths.Join` model POSIX paths with '/' as the only separator; `Join` is the two-argument form used here.
- CollectResults: the result is a `map`, so it does not record the key order. Python's dict keeps insertion order, which is the discovery order the report follows.
- Trajectory names are computed from the indices rather than read from tool output, and the report follows dict insertion order; the model follows the code in both.
- The fact that two logs in one directory share `trj<i>/` and `trj<i>.gif` (`Vibs.ModeMovieCollision`, `Vibs.CollisionExample`) is stated as the code's behaviour. No corrected naming is proposed, because the intended disambiguation is not defined in the code.
