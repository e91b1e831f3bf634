# Dojo-to-run module converter, modelled in Dafny

This project models the per-file converter of `build/convert/convertDojo.js`. The converter rewrites a Dojo source file, which declares modules with `dojo.provide("x")` and `dojo.require("y")`, into a sequence of `run("x", [deps], function(params) { ... return x; })` registration blocks. The model covers `convert` and its helper `writeRunEnd`:

- **Scanner.** The declarations of the comment-stripped text become an ordered list of `{provide, requires}` descriptors plus the set of provided names.
- **Converter.** Each descriptor's requires are filtered against the same-file provides. The require-stripped original text is cut at each `dojo.provide(...)` with a forward-moving cursor, and multi-module files are bracketed with `run.pause()` / `run.resume()`. When there is no provide, the result is the comment-stripped text. When the parse fails or a provide cannot be found again, the result is the original contents.
- **Emitter.** `writeRunEnd` rewrites `dojo.cache(mod, file)` into a `text!` dependency bound to a positional `_Rk` parameter. It builds the dependency and parameter lists and picks the return expression: the name, or `null` when the name holds a `-`.

The regular expressions are treated as already matched. A file is a `seq<Piece>`: plain `Text`, `Provide(name, lit)`, `Require(name, lit)` and `Cache(mod, file, lit)`. Each piece keeps the exact text it was matched from. A `Name` is never empty, because the declaration pattern `[\w-_\.]+` cannot capture an empty name. This is why the source's truthiness tests on names (`if (module)`, and the loops that stop at the first falsy entry) never cut anything short in the model.

The comment stripper (Rhino's compile/decompile) is an input. It yields either `Stripped(text, decls)` (the decompiled text and the declarations found in it) or `ParseFailure`. `Converter.Plan` gives the decisions of `convert` as a datatype. `Converter.Convert` turns those decisions into the output text.

Modules, one per file:
- `Strings`: JavaScript string built-ins the converter uses.
- `Source`: pieces and declarations.
- `Scanner`: the declaration scan.
- `Emitter`: `writeRunEnd`.
- `Converter`: `convert`.
- `Alignment`: conversion of a file whose declarations are all visible to the scanner.
- `Scenarios`: worked conversions of small files.

When a provide cannot be found again, the `[0]` of the null match at line 199 throws inside the `try`, so `convert` returns the original contents. In the model, `Walk` returns `None` and `Plan` yields `Unchanged`. `Converter.WalkSucceeds` characterises when this happens: exactly when the provide names the scanner saw cannot be read, in order, off the provides of the original text.

Each conversion scans its file from the beginning, because `convert` resets the shared pattern's `lastIndex` before the scan (line 149).

## Model

| member | source | states |
|---|---|---|
| Scanner.ScanMatchesReference | build/convert/convertDojo.js:149-171 | The scan loop produces exactly the reference descriptors. There is one per provide, in source order, and each holds the requires that follow it up to the next provide. The lookup set holds exactly the provided names. |
| Scanner.Descs | build/convert/convertDojo.js:158-165 | One descriptor per provide declaration, with the i-th descriptor naming the i-th provide. |
| Scanner.LeadingRequiresDropped | build/convert/convertDojo.js:166-169 | Requires that come before the first provide have no descriptor to join, and leave the scan result unchanged. |
| Converter.External | build/convert/convertDojo.js:206-211 | A name is an external dependency iff the module requires it and no provide of the same file (earlier or later) declares it. |
| Converter.ExternalCounts | build/convert/convertDojo.js:207-210 | A require is kept exactly as many times as it is listed, or not at all when the file provides it. |
| Converter.ExternalAppend | build/convert/convertDojo.js:207-210 | The filter keeps the relative order of the requires: filtering a concatenation concatenates the filtered parts. |
| Converter.FindProvide | build/convert/convertDojo.js:195-199 | The provide search from the cursor returns the first provide of that exact name at or after the cursor, or reports that none exists. |
| Converter.Walk | build/convert/convertDojo.js:192-225 | When the loop finishes, the leading chunk has no governor and every later chunk is governed. Chunk j+1 carries descriptor j's name and external deps, and there is one chunk more than there are descriptors. |
| Converter.WalkCutsAtFirst | build/convert/convertDojo.js:195-200 | Each segment ends at the first provide of the next descriptor's name after the cursor: segment j holds no provide of descriptor j's name, even when that name recurs later in the text. |
| Converter.WalkPartition | build/convert/convertDojo.js:175-225 | The segments, with each governing provide's matched text put back between them, rebuild the require-stripped text from the cursor on. The segments partition the text, and the cursor moves only forward. |
| Converter.SegmentsFreeOfRequires | build/convert/convertDojo.js:175 | No segment of a partition of require-free text holds a require. |
| Converter.Plan | build/convert/convertDojo.js:132-236 | The catch is taken iff the parse fails, or the file has a provide and the scanned provide names are not a subsequence of the original's provides (some search fails). No provide yields the stripped text. Otherwise there are #provides+1 chunks, bracketed iff there is more than one provide, governed in declaration order, partitioning the require-stripped file, with no require in any segment. Segment j is cut at the first provide of descriptor j's name, so it holds no provide of that name. |
| Converter.WalkSucceeds | build/convert/convertDojo.js:192-235 | The loop finishes iff the remaining descriptor names can be read in order off the provides from the cursor on. Otherwise some search returns null and the catch is taken. |
| Converter.Convert | build/convert/convertDojo.js:173-236 | On a parse failure, or when a provide cannot be found again, the output is the original text. With no provide it is the stripped text. With several provides it is `run.pause();`, every chunk's emitted text in order, then `run.resume();`. With one provide it is exactly the emitted chunks. |
| Converter.ExternalAsWritten | build/convert/convertDojo.js:150-210 | The filter as written keeps a require iff the file does not provide it and it is not a property name that a plain object inherits in Rhino. |
| Converter.PrototypeNameDropped | build/convert/convertDojo.js:208 | As written, a require named `toString` or `toSource` that no provide of the file declares is dropped, though it is external. |
| Converter.AsWrittenAgrees | build/convert/convertDojo.js:150-208 | Away from the property names a plain object inherits in Rhino (the standard `Object.prototype` names, `toSource`, and the `__defineGetter__`/`__lookupGetter__` family), the source's object lookup and the model's set lookup give the same dependencies. |
| Emitter.TextNameShape | build/convert/convertDojo.js:102-104 | The text name is `text!`, the module with dots turned to slashes, `/`, then the file with every dot turned to `!`. No dot survives. |
| Emitter.RewritePlaceholders | build/convert/convertDojo.js:101-108 | Every cache call becomes `_Rk`, where k is the position its text name takes in the dependency list. Every other piece is left as it was. |
| Emitter.RewriteCache | build/convert/convertDojo.js:101-108 | The dependency list after the rewrite is the old list followed by the text names of the segment's cache calls, in order. |
| Emitter.RewriteWithoutCache | build/convert/convertDojo.js:101-108 | A segment with no cache call comes out as its own text, and the dependency list is unchanged. |
| Emitter.PlaceholdersDistinct | build/convert/convertDojo.js:107 | Distinct positions get distinct parameter names. |
| Emitter.ReqStringIsJoin | build/convert/convertDojo.js:111-117 | The dependency text the loop builds is `"run", "dojo", "dijit", "dojox"` followed by each quoted dependency, joined with `, `. |
| Emitter.ArgStringIsJoin | build/convert/convertDojo.js:111-118 | The parameter text the loop builds is `run, dojo, dijit, dojox` followed by `_R0` … `_R(n-1)`, joined with `, `. |
| Emitter.WrapperShape | build/convert/convertDojo.js:110-121 | The wrapper holds, in order: the name, the dependency array, an equally long parameter list, the provide's matched text, the rewritten segment and the return expression. The external deps come before any text dependency. |
| Emitter.CachePlaceholderBinds | build/convert/convertDojo.js:101-118 | The placeholder that replaces a cache call and the call's text dependency sit at the same position in the parameter list and the dependency array. |
| Emitter.WrapperReturns | build/convert/convertDojo.js:116-121 | Every emitted block ends with `return null; });` when the provided name holds a hyphen, and with `return <name>; });` otherwise. |
| Strings.SplitJoinIsReplace | build/convert/convertDojo.js:104 | `split(".").join("!")` replaces every dot by a bang. |
| Strings.ParseNatToString | build/convert/convertDojo.js:107 | The decimal index appended to `_R` reads back as the same number. |
| Source.StripRequires | build/convert/convertDojo.js:175 | The global require replace removes every require piece and keeps every other piece. A single piece is dropped iff it is a require. |
| Source.StripRequiresAppend | build/convert/convertDojo.js:175 | Stripping a concatenation strips each part, so the kept pieces keep their order and multiplicity. |
| Source.ProvideNamesAgree | build/convert/convertDojo.js:175-199 | Stripping requires keeps every provide in order, and the declaration view lists the same provides. |
| Alignment.SearchFindsNextProvide | build/convert/convertDojo.js:195-200 | When the next provide after the cursor carries the searched name, the search lands on it and skips no provide. |
| Alignment.WalkAligned | build/convert/convertDojo.js:192-225 | When the provides from the cursor on are the remaining descriptors in order, the loop finishes and no segment holds a provide. |
| Alignment.AlignedFileConverts | build/convert/convertDojo.js:173-230 | A file with at least one provide, whose declarations are all visible to the scanner, is converted, never caught. It has one chunk per provide plus a leading one, chunk j+1 is governed by the j-th provide, pause/resume is used iff there are several provides, and no segment holds a provide. |
| Scenarios.OneModulePlan | build/convert/convertDojo.js:173-225 | `dojo.provide("a.b"); dojo.require("x.y"); var v=1;` becomes an empty leading chunk and a chunk governed by `a.b` with dependency `x.y`, without pause/resume. The segment keeps both `;`, which the patterns do not consume. |
| Scenarios.OneModuleWrapper | build/convert/convertDojo.js:110-121 | The `a.b` wrapper depends on `"x.y"` bound to `_R0`, carries `dojo.provide("a.b")` followed by `; ; var v=1;`, and returns `a.b`. |
| Scenarios.TwoModulesPlan | build/convert/convertDojo.js:188-230 | `provide(a); require(z); …; provide(b); require(a)` becomes two wrappers with pause/resume. The second has no dependency on `a`, which the same file provides. |
| Scenarios.HyphenReturnsNull | build/convert/convertDojo.js:121 | The wrapper of `a-b` returns `null`. |
| Scenarios.CacheBecomesTextDependency | build/convert/convertDojo.js:101-107 | After one external dependency, `dojo.cache("my.t", "W.html")` becomes `_R1`, and `text!my/t/W!html` is appended to the dependencies. |

## Left out

- Comment stripping through Rhino's `compileString` / `decompileScript` (lines 137-147) is a foreign parser. Its result is an input: the decompiled text with its declarations, or a parse failure.
- The regular-expression engine is not modelled; matches are already pieces. This covers `depRegExp`, `reqRemoveRegExp`, the built provide pattern and the `dojo.cache` pattern, with their whitespace and mismatched-quote tolerance. The cursor is a piece index, not a character offset.
- Injecting `run.js` at the top of `dojo.js` (lines 184-186) is a file read, so it is left out.
- The CLI, file walking, path normalisation and file copying (lines 33-77) are script glue around file I/O.
- The bootstrap `dojo.js` assembly (lines 82-89) is file reads and writes.
- Logging and timing (lines 91-92, 134, 155, 234) are not modelled.
- Idempotence holds by construction: `Convert` is a function of its inputs, so it has no separate lemma.
- Converter.Convert: the converse of the pause/resume bracket is stated on `Converter.Plan` (`bracketed` iff more than one provide), not on the output text. The text of a single-module file may itself begin with `run.pause();`.
- Converter.External: models the same-file lookup as a set. The source looks names up on a plain object, which also treats the inherited `Object.prototype` property names as provided; see Findings.
- AsWrittenAgrees: the inherited names are those of Rhino's `Object.prototype`: the standard seven, `toSource`, and the four getter/setter accessors. `__proto__` and `__parent__` are left out, because Rhino treats them specially only for some forms of property access. Any other property a particular Rhino build adds is not modelled.

## Findings

| source | as written | input that shows it | evidently intended | confidence | as-written member | corrected member |
|---|---|---|---|---|---|---|
| build/convert/convertDojo.js:208 | `!deps.provides[module]` on a plain object `{}` is false for names that `Object.prototype` supplies, so such a require is never added to the dependencies | a file that provides `a` and requires a module named `toString` (or `toSource`) | keep every require not provided in the same file | medium, not executed | Converter.ExternalAsWritten, Converter.PrototypeNameDropped | Converter.External |
