# Install-path resolution of the i-MSCP Composer installer plugin

The plugin tells Composer where to install packages whose type starts with
`imscp` or `roundcube`. This project models that engine as pure functions
over strings and sequences, and proves what each step promises.

- **Registry** (`Resolvers`). A table from a type prefix to a resolver
  record. A record holds a location map (subtype to path template) and a
  name inflection. There are two records:
  - iMSCP: `plugin`, `theme` and `tool`, with names kept as written.
  - Roundcube: `plugin` only, with names lower-cased and `-` turned into `_`.
- **Disabling** (`Disabling`). The root package's `installer-disable` extra
  either empties the table or removes the resolvers it names.
- **Type resolution** (`TypeResolution`). The keys are sorted in descending
  order, as `krsort` does. The first key that is a leading substring of the
  type is chosen. That key is proved to be the longest registered prefix.
  `supports` is modelled as "`prefix-k` occurs in the type for a location
  key `k` of the chosen resolver".
- **Custom paths** (`CustomPaths`). The root package's `installer-paths`
  extra. The first entry whose tokens list the package (by name, `type:` or
  `vendor:`) gives the template.
- **Templates** (`Template`). `templatePath` collects the `{$ident}` markers
  of the template and then replaces each one everywhere, in occurrence order.
  For well-formed templates whose values hold no `{`, this is proved to equal
  a single left-to-right substitution. Otherwise a value can be substituted
  again, which is also proved.
- **Orchestration** (`Installer`). `getInstallPath` runs these steps in order:
  1. split the name into vendor and name;
  2. inflect the name;
  3. apply the `installer-name` override;
  4. look up a custom path;
  5. drop the prefix and one more byte to get the subtype;
  6. look up the default location;
  7. render the template.

  Errors are values: `UnsupportedType` (no prefix matches) and
  `UnsupportedSubtype` (the resolver has no location for the subtype).
- **Concrete outcomes** (`ResolverPaths`). The two built-in resolvers, stated
  for every package name.

## Model

| member | source | states |
|---|---|---|
| Resolvers.DefaultRegistryWellFormed | src/Installer.php:20-23 | the built-in table has exactly the distinct keys `imscp` and `roundcube`, in that order, each mapped to its resolver record |
| Resolvers.Get | src/Installer.php:105 | looking a key up fails exactly when the key is not registered; on success the entry is in the table |
| ResolverPaths.ImscpLocations | src/iMSCPInstaller.php:7-11 | the iMSCP location keys are exactly plugin, theme and tool |
| ResolverPaths.ImscpTemplates | src/iMSCPInstaller.php:8-10 | each iMSCP location is its directory followed by the `{$name}` marker and a slash |
| ResolverPaths.RoundcubeTemplate | src/RoundcubeInstaller.php:7-9 | the Roundcube plugin location is `plugins/` followed by the `{$name}` marker and a slash |
| Disabling.RemoveDisabledInstallers | src/Installer.php:60-89 | absent or `false` leaves the table unchanged; a global token anywhere empties it; otherwise exactly the entries named by string tokens are removed and every other entry stays |
| Disabling.Keep | src/Installer.php:83-87 | reference filter: an entry survives exactly when it was in the table and its key is not named |
| Disabling.UnsetIsKeep | src/Installer.php:84-86 | unsetting one key is filtering that key out |
| Disabling.Unset | src/Installer.php:85 | after `unset` an entry remains exactly when it was in the table and its key is not the unset key |
| Disabling.UnsetEach | src/Installer.php:82-87 | only entries of the table remain, and none whose key a string token of the list names; `Disabling.UnsetEachIsKeep` shows the result is exactly the `Keep` filter of the named keys |
| Disabling.KeepKeep | src/Installer.php:83-87 | removing one set of names and then another equals removing both at once |
| Disabling.UnsetEachIsKeep | src/Installer.php:82-87 | the loop over the list removes exactly the keys its string tokens name; booleans and unknown names change nothing |
| Disabling.NamedCons | src/Installer.php:83-85 | the names a list disables are those of its first token plus those of the rest |
| Disabling.SingleIsOneElementList | src/Installer.php:71-73 | a single value disables exactly what the one-element list holding it disables |
| Disabling.GlobalAnywhereDisablesAll | src/Installer.php:76-80 | a token equal as a string to `true`, "all" or "*" empties the table wherever it sits in the list |
| Disabling.GlobalTokens | src/Installer.php:76-77 | `true`, the string "1" (the string form of `true`), "all" and "*" are global; `false` and the string "true" are not |
| Disabling.IsGlobal | src/Installer.php:76-77 | compared by string form (`(string)true` is "1"), a token is global exactly when it is `true` or one of the strings "1", "all" and "*" |
| Disabling.KeepDistinct | src/Installer.php:83-87 | removing entries keeps the keys distinct |
| TypeResolution.Insert | src/Installer.php:122 | inserting a key into a descending list keeps it descending and adds exactly that key |
| TypeResolution.SortDescending | src/Installer.php:122 | `krsort`: the result is descending and a permutation of the keys |
| TypeResolution.FirstPrefix | src/Installer.php:124-129 | the scan finds nothing exactly when no key is a leading substring; otherwise it returns the first such key |
| TypeResolution.FindInstallerType | src/Installer.php:119-132 | nothing is found exactly when no registered key is a leading substring of the type; a found key is registered, leads the type, and no registered key that leads the type is longer |
| TypeResolution.FirstOfDescendingIsLongest | src/Installer.php:122-128 | in a descending key list, the first key that leads the type is at least as long as every other key that does |
| TypeResolution.AtLeastPrefixIsLonger | src/Installer.php:122-128 | of two prefixes of the same type, the one that sorts higher is at least as long |
| TypeResolution.FindInstallerTypeIsLongest | src/Installer.php:119-132 | the chosen key is exactly the longest registered key that leads the type (so `foobar` beats `foo`) |
| TypeResolution.SupportsNamesALocation | src/Installer.php:157-168 | a supported type has a longest registered prefix, and `prefix-k` occurs in it for a location `k` of that resolver |
| TypeResolution.DeclaredTypeIsSupported | src/Installer.php:177-190 | `prefix-k`, for a location `k` of the resolver that the type selects, is supported |
| TypeResolution.OccurrenceIsSupported | src/Installer.php:157-168 | a type in which `p-k` occurs anywhere, for the longest registered prefix `p` and a location `k` of its resolver, is supported (so `imscp-tool-extra` is) |
| TypeResolution.LocationPatternMatches | src/Installer.php:177-190 | the unanchored `prefix-(k1\|k2\|…)` over the location keys, or `prefix-(\w+)` for a resolver without locations; `TypeResolution.SupportsNamesALocation` and `TypeResolution.OccurrenceIsSupported` give its meaning in both directions |
| TypeResolution.Supports | src/Installer.php:157-168 | supported when a registered prefix leads the type and the location pattern of its resolver matches; `TypeResolution.SupportsNamesALocation` (supported ⇒ the longest prefix `p` and some `p-k` occurs) and `TypeResolution.OccurrenceIsSupported` (the converse) make it an if-and-only-if |
| CustomPaths.MapCustomInstallPaths | src/AbstractInstaller.php:98-107 | nothing is returned exactly when no entry lists the name, `type:<type>` or `vendor:<vendor>`; otherwise the template of the first listing entry, not yet rendered |
| CustomPaths.MapCustomInstallPathsAsWritten | src/AbstractInstaller.php:98-107 | as written: the first listing entry's template, or "" when none lists the package |
| Template.IdentRun | src/AbstractInstaller.php:120 | the run of `[A-Za-z0-9_]` characters at the front of the text, and no longer |
| Template.MarkerAt | src/AbstractInstaller.php:120 | a marker read at the front is an identifier whose `{$id}` text leads the string |
| Template.Placeholders | src/AbstractInstaller.php:120 | every collected match is an identifier |
| Template.PlaceholdersOfFlatten | src/AbstractInstaller.php:120 | the matches collected from a well-formed template are its markers, in order |
| Template.Render | src/AbstractInstaller.php:116-130 | a template without `{` is returned unchanged |
| Template.Lookup | src/AbstractInstaller.php:119-124 | the value of `$$var` after `extract`: name, vendor or type, and "" for any other identifier; `Template.RenderOneMarker` states it inside a template |
| Template.ReplaceAllFills | src/AbstractInstaller.php:124 | replacing one marker everywhere fills exactly that marker's places and leaves the text between markers intact |
| Template.ReplaceAll | src/AbstractInstaller.php:124 | `str_replace` leaves a text in which the needle does not occur unchanged; `Template.ReplaceAllFills` states what it does to each occurrence |
| Template.ReplaceEach | src/AbstractInstaller.php:123-125 | the loop of one `str_replace` per collected marker; `Template.ReplaceEachExpands` shows it equals one-pass substitution |
| Template.FillKeepsShape | src/AbstractInstaller.php:123-125 | filling a marker with its brace-free value keeps the template well formed, does not change its one-pass meaning, and leaves only the other markers |
| Template.ReplaceEachExpands | src/AbstractInstaller.php:122-126 | the fold over a list of identifiers covering every marker gives the one-pass substitution |
| Template.RenderIsSubstitution | src/AbstractInstaller.php:116-130 | for a well-formed template and values without `{`, rendering is the one-pass substitution of each marker by its value, with text outside markers kept |
| Template.RenderOneMarker | src/AbstractInstaller.php:118-126 | a template with one marker and text around it gets that variable's value (or "" for an unknown name) in the marker's place |
| Template.ValuesAreRescanned | src/AbstractInstaller.php:123-125 | when one variable's value is a later marker, that later marker's value lands in both places |
| Inflection.AsciiLower | src/RoundcubeInstaller.php:19 | an upper-case ASCII letter becomes its lower-case letter; every other character is kept |
| Inflection.Inflect | src/RoundcubeInstaller.php:17-22 | inflection changes only the name: vendor and type stay; the default inflection is the identity |
| Inflection.SnakeNamePointwise | src/RoundcubeInstaller.php:19 | the Roundcube name has the input's length; each `-` becomes `_`, and other characters are lower-cased |
| Inflection.SnakeName | src/RoundcubeInstaller.php:19 | `strtolower(str_replace('-', '_', $name))`; `Inflection.SnakeNamePointwise` states it position by position |
| Inflection.SnakeNameIsNormal | src/RoundcubeInstaller.php:19 | the Roundcube name holds no `-` and no upper-case ASCII letter |
| Inflection.SnakeNameIdempotent | src/RoundcubeInstaller.php:19 | inflecting a Roundcube name twice changes nothing |
| Installer.TakeUntil | src/AbstractInstaller.php:46 | the leading part of the text before the first separator, which does not hold the separator |
| Installer.SplitName | src/AbstractInstaller.php:45-50 | without `/` the vendor is "" and the name is the whole string; with `/` both are `/`-free and vendor, `/`, name lead the pretty name up to the next `/` |
| Installer.TakeUntilOfJoin | src/AbstractInstaller.php:46 | reading up to the separator from a separator-free text followed by the separator gives back that text |
| Installer.SplitNameOfJoin | src/AbstractInstaller.php:45-50 | `vendor/name/rest` splits into that vendor and that name, so the name is the second segment only |
| Installer.PackageVars | src/AbstractInstaller.php:52-56 | vendor and type come from the package; a non-empty `installer-name` is the name as given; otherwise the name is the second segment, verbatim for iMSCP and inflected for Roundcube |
| Installer.Subtype | src/AbstractInstaller.php:68 | `substr` and `strlen` count UTF-8 bytes, so one byte after the prefix is dropped: when the character there is ASCII the subtype is exactly the rest of the type; when it takes more bytes the subtype starts inside it and is no text (`None`); a type no longer than the prefix has subtype "" |
| Installer.SubtypeAfterSeparator | src/AbstractInstaller.php:68 | the subtype of `prefix` + a one-byte (ASCII) separator + `k` is `k`; with a multi-byte separator there is no text subtype |
| Installer.HasLocation | src/AbstractInstaller.php:71 | `isset($locations[$packageType])`: a location is found only when the character after the prefix is one byte (or there is none), and a type no longer than the prefix finds one only for a "" key |
| Installer.DefaultPath | src/AbstractInstaller.php:68-75 | succeeds exactly when the resolver has a location for the subtype, and otherwise gives the unsupported-subtype error; `Installer.NoCustomMatchFallsThrough` gives the rendered location |
| Installer.ResolverInstallPath | src/AbstractInstaller.php:58-75 | the only failure is a subtype the resolver has no location for |
| Installer.InstallPath | src/Installer.php:94-111 | resolution fails with the unsupported-type error exactly when no registered key leads the type |
| Installer.SessionInstallPath | src/Installer.php:76-80 | with a global disable token every package type is unsupported |
| Installer.ResolverInstallPathAsWritten | src/AbstractInstaller.php:58-75 | as written: any non-empty `installer-paths` yields a path, and without one the default location decides |
| Installer.InstallPathAsWritten | src/Installer.php:96-103 | as written: a type no key leads is still the unsupported-type error |
| Installer.CustomPathWins | src/AbstractInstaller.php:58-66 | a matching custom path is rendered and returned, even when the subtype has no default location |
| Installer.NoCustomMatchFallsThrough | src/AbstractInstaller.php:68-75 | without a matching custom path the rendered default location is returned, or the unsupported-subtype error when there is none |
| Installer.UnmatchedRulesAreIgnored | src/AbstractInstaller.php:58-66 | custom paths that list no entry for the package give the same outcome as no custom paths at all |
| Installer.DeclaredTypeResolves | src/AbstractInstaller.php:68-75 | the type `prefix-k` for a location `k` of the selected resolver always resolves |
| ResolverPaths.ImscpPrefixFound | src/Installer.php:119-132 | any type starting with `imscp` selects the iMSCP resolver |
| ResolverPaths.RoundcubePrefixFound | src/Installer.php:119-132 | any type starting with `roundcube` selects the Roundcube resolver, with or without iMSCP registered |
| ResolverPaths.OneMarkerLocation | src/AbstractInstaller.php:68-75 | a location of the form `dir{$name}/` resolves to `dir`, the package name and a slash |
| ResolverPaths.ImscpDefaultPath | src/iMSCPInstaller.php:7-11 | `imscp-plugin`, `imscp-theme` and `imscp-tool` install in `plugins/`, `theme/` and `public/tools/` under the verbatim name or `installer-name`, for any one-byte (ASCII) separator; with a multi-byte separator the type gets the unsupported-subtype error |
| ResolverPaths.ImscpUnknownSubtype | src/AbstractInstaller.php:68-73 | an iMSCP type whose subtype is not a location fails with the unsupported-subtype error |
| ResolverPaths.RoundcubePluginPath | src/RoundcubeInstaller.php:7-22 | `roundcube`, a one-byte (ASCII) separator and `plugin` install in `plugins/` under the inflected second segment of the name, or under `installer-name` as given; with a multi-byte separator the type gets the unsupported-subtype error |
| ResolverPaths.SplitSeparatorRejected | src/AbstractInstaller.php:68-73 | a subtype cut inside a multi-byte character names no location, so resolution fails with the unsupported-subtype error |
| ResolverPaths.ImscpTypeSupported | src/Installer.php:157-168 | every `imscp-<location>` type is supported |
| ResolverPaths.RoundcubeTypeSupported | src/Installer.php:157-168 | every `roundcube-<location>` type is supported |
| ResolverPaths.ShortImscpTypeUnsupported | src/Installer.php:165-167 | an `imscp` type too short to hold `imscp-tool` (such as `imscp-foo`) is not supported |
| ResolverPaths.ForeignTypeUnsupported | src/Installer.php:159-163 | a type beginning with neither `i` nor `r` (such as `foo-bar`) is not supported |
| ResolverPaths.DashlessTypeUnsupported | src/Installer.php:165-167 | an `imscp` type without a dash (such as `imscp_tool`) is not supported, although it resolves |
| ResolverPaths.NoImscpLocationOccurs | src/Installer.php:157-190 | an `imscp` type in which no `imscp-<location>` occurs is not supported |
| ResolverPaths.DisableNothing | src/Installer.php:63-66 | absent, `false`, or a list of unregistered, non-global names leaves the table whole |
| ResolverPaths.DisableRoundcube | src/Installer.php:82-87 | a list naming `roundcube` but not `imscp`, including beside the string "true", keeps only iMSCP |
| ResolverPaths.DisableImscp | src/Installer.php:82-87 | a list naming `imscp` but not `roundcube` keeps only Roundcube |
| ResolverPaths.DisabledEverything | src/Installer.php:76-80 | a global token, single or anywhere in a list, makes every package unsupported |
| ResolverPaths.DisableRoundcubeKeepsImscp | src/Installer.php:82-87 | with Roundcube disabled, iMSCP packages still install at their default locations |
| ResolverPaths.CustomPathByToken | src/AbstractInstaller.php:98-104 | for any type starting with `imscp`, a custom path that lists `vendor/name` by full name, `type:` or `vendor:` replaces the default location, even for an unknown subtype, and is rendered with the package's name |
| ResolverPaths.CustomPathByTokenIn | src/AbstractInstaller.php:58-66 | in any registry whose selected resolver keeps names verbatim, a custom `dir{$name}/` that lists the package gives `dir`, the name as written and a slash, whatever the default location would be |
| ResolverPaths.TokenSelectsRule | src/AbstractInstaller.php:100-103 | a single rule listing `vendor/name` by any of its three tokens is the one selected, and the name splits back into that vendor and name |
| ResolverPaths.UnmatchedCustomPathsAsWritten | src/AbstractInstaller.php:98-107 | as written, non-empty custom paths that do not list an iMSCP package install it at ""; the corrected lookup sends it to its default location when the separator is one byte (ASCII), and gives the unsupported-subtype error otherwise |
| Strings.OccursIffSomePosition | src/Installer.php:167 | an unanchored match occurs exactly when the pattern leads the text at some position |
| Strings.BelowTotal | src/Installer.php:122 | the byte-wise order `krsort` uses is total on distinct strings |
| Strings.BelowTransitive | src/Installer.php:122 | the byte-wise order is transitive |

## Left out

- Composer plumbing is not modelled, since it does not decide any path. This
  covers the `LibraryInstaller` parent and constructor wiring, `uninstall`
  with its file check and message, `getIO`, download managers and
  repositories.
- Resolver classes are not instantiated by a constructed class name. The
  registry maps each prefix straight to its record.
- `in_array` compares loosely in PHP. The model compares tokens as exact
  strings.
- `extract` and `$$var` would let a marker such as `{$path}` render a local
  of `templatePath`. The model offers only name, vendor and type, and an
  unknown name renders "" (PHP would also raise a warning).
- `empty("0")` is true in PHP, so an `installer-name` of "0" is ignored
  there. The model treats only "" as unset.
- `krsort` compares numeric-looking keys as numbers. The model compares all
  keys byte-wise, which matches for the two built-in keys.
- Disable tokens are booleans or strings only. Integers, nulls inside a list
  and nested arrays are not modelled.
- The `(\w+)` fallback of `getLocationPattern` is reachable only with an
  empty location table. It is modelled as "`prefix-` followed by a word
  character occurs", not as a regular expression.
- Characters in a key or location name that a regular expression would treat
  specially are not modelled; `supports` compares them literally.
- src/ImscpInstaller.php is not part of this model. It is an unreferenced
  copy of the iMSCP record, and its `themes/` location contradicts the class
  the registry names.
- Installer.Subtype: a subtype cut inside a multi-byte character is `None`,
  not the character's trailing bytes. Such a subtype starts with a UTF-8
  continuation byte, which no location key does, so only the failed lookup
  it leads to is kept. A type no longer than the prefix has subtype "", as PHP 8's
  `substr` gives; PHP 7 gives `false`, whose lookup uses key 0, which neither
  built-in table has, so the outcome is the same there.
- Strings are sequences of characters. Lower-casing touches ASCII `A`-`Z`
  only, as `strtolower` does.

## Behaviour a reader might not expect (the model follows the code)

- The name is the second `/`-segment, not everything after the first `/`
  (src/AbstractInstaller.php:45-46).
- A marker naming an unknown variable renders as ""
  (src/AbstractInstaller.php:118-126).
- The docblock of `removeDisabledInstallers` (src/Installer.php:53-56) lists
  `true`, "all" and "*" as the tokens that disable everything. A disable list
  holding the string "true" does not disable everything. Only a token whose
  string form is "1", "all" or "*" does: `true`, or the strings "1", "all"
  and "*" (src/Installer.php:76-80).
- A `vendor:` token with an empty vendor matches packages whose name has no
  `/` or starts with `/` (src/AbstractInstaller.php:45-50 and 100-103).

## Findings

| source | as written | input that shows it | evidently intended | confidence | as-written member | corrected member |
|---|---|---|---|---|---|---|
| src/AbstractInstaller.php:98-107 | `mapCustomInstallPaths` is declared to return `string` but ends with `return false`. Under PHP's default coercive typing the caller receives "", so the `!== false` test at line 62 never fails. | Root extra `installer-paths` = `{"custom/{$name}/": ["other/pkg"]}`, package `imscp/foo` of type `imscp-plugin`: the install path is "" | fall through to the default location, `plugins/foo/` | not executed | Installer.InstallPathAsWritten, with ResolverPaths.UnmatchedCustomPathsAsWritten exhibiting the "" path | Installer.InstallPath, with CustomPaths.MapCustomInstallPaths returning no template and Installer.UnmatchedRulesAreIgnored |
