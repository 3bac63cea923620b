# Bethesda archive façade, texture error codes and path canonicalisation in Dafny

This project models three self-contained parts of a toolkit for Bethesda game
archives (BSA/BA2):

- **The archive façade** (`Bsa`, `archive.dfy`). An `Archive` holds exactly
  one of three representations. tes3 is a flat map from path to file. tes4 is
  a map from directory to a map from file name to file, and carries
  archive-level flags. fo4 is a flat map with per-file compression. The model
  covers these operations:
  - construction from one of the six `ArchiveVersion`s and a compression flag;
  - `get_version<T>`, which checks that the requested native token type and
    the active representation both agree with the stored version;
  - `add_file`, which places a file or refuses one of the wrong kind;
  - the compression choice made by the two `add_file` overloads that build
    the file;
  - `file_count`.
  The `get_version()` accessor is the `version` field of the `Archive`
  datatype. Exceptions become `Result` values with an `ArchiveError`.
- **Texture error classification** (`TexError`, `error_code.dfy`).
  `std::error_code` becomes a (category, value) pair. The model covers the two
  category `message` functions, `FailureSourceCategory::equivalent` (which maps
  a concrete error to a coarse recoverability condition), and
  `error_from_hresult` on non-Windows platforms. That function checks the
  64-bit HRESULT against the Win32 facility mask, and it does so before the
  `S_OK` check. Bitwise AND, shifts and bit fields are defined on naturals in
  `Bits` (`bits.dfy`). The mask tests are proved equal to bit-field
  comparisons.
- **Path canonicalisation** (`PathCanon`, `path_canon.dfy`). It models
  `backslash_to_slash` and the function returned by `make_path_canonizer`.
  That function lower-cases the path, converts backslashes to slashes, and
  drops everything up to and including the first occurrence of the marker.

`FsPath` (`fs_path.dfy`) holds the parts of `std::filesystem::path` the
façade uses. A path is a sequence of elements, and the module defines
`generic_string`, `parent_path`, `filename`, `lexically_normal` and
`lexically_relative` over it. `Wrappers` (`wrappers.dfy`) holds `Option` and
`Result`.

Three points about the code that are easy to get wrong:

- The tes3 key is the raw generic string of the relative path. It is not
  normalised. Only the fo4 key and the two tes4 keys are passed through
  `lexically_normal`.
- The façade does not lower-case virtual paths before handing them to the
  archive's containers.
- A version/representation mismatch in `get_version` is a plain runtime
  error (`VersionMismatch`), not a separate error class.

A fact worth knowing about `error_from_hresult`: the failure HRESULT
`0x80070000` becomes system code 0. `std::error_code` reads value 0 as "no
error" (`TexError.Win32ZeroCodeIsValueZero`).

## Model

| member | source | states |
|---|---|---|
| `Bsa.NewArchive` | src/bsa/archive.cpp:26-51 | tes3 gives the tes3 representation; tes4, fo3 and sse give tes4; fo4 and fo4dx give fo4. Version and compression flag are stored unchanged and the archive is empty, so it has no empty directory. A tes4 archive always has the directory-strings and file-strings flags, and has the compressed flag exactly when compression was asked for |
| `Bsa.NewArchiveConsistent` | src/bsa/archive.cpp:26-51 | the constructor's choice of representation agrees with the version table that `get_version` checks against |
| `Bsa.GetVersion` | src/bsa/archive.cpp:240-274 | succeeds exactly when the requested token type is the one for the version's family and the variant holds that family's archive. It then returns the stored version as that type; otherwise it fails with the mismatch error |
| `Bsa.FreshGetVersion` | src/bsa/archive.cpp:243-273 | on an archive fresh from the constructor, `get_version` succeeds with the family's token type and fails with each of the other two |
| `Bsa.FileCount` | src/bsa/archive.cpp:235-238 | for tes3 and fo4 the count is the number of slots holding a file. On an archive without empty tes4 directories it is the number of distinct top-level keys some stored file sits under, so for tes4 it counts directories that hold a file, not files |
| `Bsa.AddFileKeepsNoEmptyDirs` | src/bsa/archive.cpp:106-117 | `add_file` never leaves an empty tes4 directory: a directory it creates receives the file at once. Together with the empty constructed archive this keeps the premise of the `file_count` statement |
| `Bsa.AddFile` | src/bsa/archive.cpp:99-124 | a file whose kind differs from the archive's is refused and nothing is stored. Otherwise the file is found at its slot afterwards, overwriting any earlier file. A missing tes4 directory is created and every other directory stays as it was. Flags, representation, version and compression flag are unchanged. The tes3 key is the raw path, the fo4 key the normal path, the tes4 keys the normal parent and the normal filename |
| `Bsa.PutInDir` | src/bsa/archive.cpp:106-117 | the tes4 insertion creates the directory only when it is missing, stores the file under its name there, and keeps every other directory and every other name in that directory |
| `Bsa.AddFileKeepsOtherSlots` | src/bsa/archive.cpp:99-124 | adding a file changes only its own slot: every other slot of every representation holds what it held |
| `Bsa.FileCountAfterAdd` | src/bsa/archive.cpp:104-119 | after a successful add the top-level keys are the old ones plus the path's own key. The count grows by one exactly when the top-level key (for tes4 the directory) was absent, and is unchanged otherwise |
| `Bsa.Tes4LastWriteWins` | src/bsa/archive.cpp:106-117 | adding the same tes4 path twice leaves the second file at that directory/name pair, and the directory count does not change |
| `Bsa.AddData` | src/bsa/archive.cpp:159-191 | tes3 files are stored uncompressed. tes4 and fo4 files are marked for compression exactly when the archive was built compressed, after their version resolves. The call fails only when that resolution fails. The bytes end up at the path's slot. Every other slot holds what it held, the top-level keys gain only the path's own key, and no empty directory appears |
| `Bsa.AddFromDisk` | src/bsa/archive.cpp:126-157 | the file's bytes are stored under the normal form of the path relative to the root, with the same compression choice and the same failure condition as for in-memory bytes |
| `Bsa.AddFromDiskIsAddData` | src/bsa/archive.cpp:126-191 | the two overloads agree: adding from disk is adding the file's bytes under the normalised relative path |
| `Bsa.FromDiskFlatKey` | src/bsa/archive.cpp:126-157 | in a tes3 or fo4 archive, a file added from disk is found under the generic string of its normalised relative path. The second normalisation inside `add_file` changes nothing |
| `Bsa.AddDataKeepsConsistent` | src/bsa/archive.cpp:159-191 | on an archive whose representation matches its version, adding bytes always succeeds and keeps that invariant |
| `Bsa.Tes3KeyNotNormalised` | src/bsa/archive.cpp:103-120 | the tes3 key keeps a leading `./`, the fo4 key drops it |
| `Bsa.PlainPathKeysAgree` | src/bsa/archive.cpp:103-120 | for a path made only of names the tes3 and fo4 keys coincide |
| `Bsa.TrailingSeparatorKeys` | src/bsa/archive.cpp:107-116 | for the tes4 path `textures/` the directory key is `textures` and the file key is empty, since `filename()` of a path ending in a separator is empty |
| `Bsa.HelloScenario` | src/bsa/archive.cpp:106-117 | an uncompressed tes4 archive given `hello` at `sub/dir/file.txt` has one directory, `sub/dir`, holding `file.txt` with those bytes uncompressed |
| `FsPath.RelativeBelowBase` | src/bsa/archive.cpp:128 | a path below the root is relative to it by exactly the elements that follow, as iteration yields them. This holds however the root is written, with repeated or trailing separators |
| `FsPath.DoubledSeparatorRelative` | src/bsa/archive.cpp:128 | a doubled separator counts as one: `r//x` relative to `r` is `x` |
| `TexError.TextureMessage` | src/tex/error_code.cpp:17-29 | total over all integers; the unrecognised text is returned exactly for values that are no texture error |
| `TexError.TextureMessageIdentifies` | src/tex/error_code.cpp:17-29 | distinct recognised values have distinct messages, and none is the unrecognised text |
| `TexError.ConditionMessage` | src/tex/error_code.cpp:41-49 | total over all integers; the unrecognised text is returned exactly for values that are no condition |
| `TexError.ConditionMessageIdentifies` | src/tex/error_code.cpp:41-49 | distinct recognised conditions have distinct messages, and none is the unrecognised text |
| `TexError.MakeErrorCode` | src/tex/error_code.cpp:31-34 | a texture error becomes the code in the texture category whose value decodes back to that error |
| `TexError.TextureErrRoundTrip` | src/tex/error_code.cpp:19-27 | decoding a texture error's value gives that error back |
| `TexError.FailureSourceRoundTrip` | src/tex/error_code.cpp:43-47 | decoding a condition's value gives that condition back |
| `TexError.Equivalent` | src/tex/error_code.cpp:51-60 | only texture-category codes and recognised conditions can be equivalent |
| `TexError.EquivalentIsClassification` | src/tex/error_code.cpp:51-60 | a code matches a condition exactly when it is a texture error that the error-to-condition table files under that condition |
| `TexError.BadUserInputExactly` | src/tex/error_code.cpp:55 | BadUserInput matches exactly the code (texture, BadInput) |
| `TexError.SystemErrorExactly` | src/tex/error_code.cpp:56-57 | SystemError matches exactly (texture, Unknown) and (texture, MemoryAllocation) |
| `TexError.ConditionsDisjoint` | src/tex/error_code.cpp:53-59 | no code matches both conditions; Success, WriteFailure and ReadFailure match no condition |
| `TexError.UnknownConditionMatchesNothing` | src/tex/error_code.cpp:58 | an unrecognised condition value matches no code |
| `TexError.FacilityMaskAsField` | src/tex/error_code.cpp:89-91 | `(u & 0xFFFF0000) == 0x80070000` holds exactly when bits 16..31 of `u` are `0x8007` |
| `TexError.CodeMaskAsField` | src/tex/error_code.cpp:94 | `u & 0xFFFF` is bits 0..15 of `u` |
| `TexError.ErrorFromHresult` | src/tex/error_code.cpp:88-100 | a Win32-facility HRESULT gives the system code equal to its low 16 bits, a value in 0..65535. Zero gives Success. Every other HRESULT gives the caller's default unchanged. The three cases exclude each other |
| `TexError.FieldsAsArithmetic` | src/tex/error_code.cpp:89-94 | the facility bits are `(u / 65536) % 65536` and the code bits `u % 65536` |
| `TexError.HighBitsIgnored` | src/tex/error_code.cpp:89-94 | HRESULTs that agree on their low 32 bits have the same facility and code bits. If one is in the Win32 facility, both give the same error |
| `TexError.SignExtensionIrrelevant` | src/tex/error_code.cpp:89-100 | a 32-bit HRESULT held sign-extended classifies exactly like its unsigned 32-bit form |
| `TexError.AccessDeniedIsWin32Code` | src/tex/error_code.cpp:88-95 | `0x80070005`, written unsigned or sign-extended, gives system code 5 |
| `TexError.GenericFailureIsDefault` | src/tex/error_code.cpp:99-100 | `0x80004005` lies outside the Win32 facility and gives the caller's default |
| `TexError.Win32ZeroCodeIsValueZero` | src/tex/error_code.cpp:91-95 | `0x80070000` gives system code 0 |
| `PathCanon.BackslashToSlash` | include/btu/common/path.hpp:22-26 | length is preserved, no backslash remains, every backslash becomes a slash and every other character keeps its place |
| `PathCanon.BackslashToSlashIdempotent` | include/btu/common/path.hpp:25 | converting twice is converting once |
| `PathCanon.ToLower` | include/btu/common/path.hpp:31 | length is preserved and each character is lower-cased in place |
| `PathCanon.ToLowerCapitals` | include/btu/common/path.hpp:31 | a string of ASCII capitals is lower-cased onto the string whose every character is 32 code points higher |
| `PathCanon.ToLowerCapitalAlphabet` | tests/src/string.cpp:104 | the capital alphabet of the string tests becomes the small-letter alphabet |
| `PathCanon.ToLowerKeepsNonCapitals` | include/btu/common/path.hpp:31 | an ASCII string without capitals is left unchanged |
| `PathCanon.ToLowerKeepsSmallLetters` | tests/src/string.cpp:105 | the small-letter alphabet of the string tests is left unchanged |
| `PathCanon.ToLowerKeepsPunctuation` | tests/src/string.cpp:106 | the punctuation of the string tests is left unchanged |
| `PathCanon.Find` | include/btu/common/path.hpp:34 | returns the first index where the marker occurs, or none when it occurs nowhere |
| `PathCanon.Canonize` | include/btu/common/path.hpp:28-38 | the result has no backslash. When the marker does not occur in the lower-cased, slash-converted path, the result is the whole of that path. Otherwise it is the part after the marker's first occurrence |
| `PathCanon.CanonizeIsSuffix` | include/btu/common/path.hpp:34-36 | the result is always a suffix of the normalised path |
| `PathCanon.EmptyStartKeepsAll` | include/btu/common/path.hpp:34-35 | an empty marker strips nothing |
| `PathCanon.BackslashStartNeverMatches` | include/btu/common/path.hpp:31-35 | a marker containing a backslash never matches, so the whole normalised path is returned |
| `PathCanon.UppercaseStartNeverMatches` | include/btu/common/path.hpp:31-35 | the marker is not lower-cased, so one containing an ASCII capital never matches |

## Left out

- `Archive::read`, `Archive::write`, `Archive::unpack` and the path constructor are left out. They are file I/O and calls into the archive codec (format detection, reading, writing, compression), plus directory creation and multi-threaded extraction.
- The mutex in `add_file` is left out. The model is sequential.
- `get_archive_identifier`, `get_archive` and `virtual_to_local_path` are left out. The first two return a string tag or the variant itself, and the third is not part of this model.
- The codec's work on file contents is not modelled. Compression itself, the fo4 chunk sizes (512/512) and the compression codec and level are absent. A `Blob` records the bytes and whether compression was requested.
- Only the three tes4 archive flags the constructor sets are modelled. The codec's other flags are not.
- `Bsa.AddFile`: the archive's containers belong to the archive codec, which is not part of this model. The model assumes that their `insert` replaces an existing entry under the same key. It also assumes that keys compare as exact strings, with no case folding. `Bsa.Tes4LastWriteWins` rests on the first assumption; under keep-the-first insertion the first file would stay.
- `Bsa.GetVersion`: the returned token carries the version itself rather than its number. The numeric values of `ArchiveVersion` are declared in a header that is not part of this model.
- `TexError.TextureErrValue` and `TexError.FailureSourceValue`: the enumerators' numbers are declared in a header that is not part of this model. TextureErr is assumed numbered 0..5 in declaration order. FailureSource is assumed to start at 1.
- The `_WIN32`-only `known_codes` array in `error_from_hresult` (src/tex/error_code.cpp:76-83) is left out. Its `ERROR_*` entries and `HRESULT_FROM_WIN32` are Windows SDK definitions, and the modelled path is the non-Windows one.
- `std::source_location` and the category `name` functions are left out. The `std::error_category` machinery is reduced to the `Category` datatype.
- `FsPath.Filename`: paths are sequences of relative elements. Root names, root directories and the special filename rules for them are not modelled.
- `FsPath.LexicallyNormal`: it does not keep the trailing separator that `std::filesystem` leaves after removing a final `.` or a final `name/..`. It treats every empty element as a redundant separator.
- `FsPath.LexicallyRelative`: the checks for differing root names and absolute/relative mismatch are omitted. Both paths are taken to share a root. Repeated separators are collapsed as iteration does, but a leading empty element (a root directory) is dropped like any other.
- `PathCanon.ToLower`: it lower-cases ASCII capitals only. The UTF-8 case folding that maps `À` to `à` is not modelled.
- `PathCanon.Canonize`: the path is given as its generic string, and characters stand for UTF-8 code units.
