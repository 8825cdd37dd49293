# Handoff for Drupal: Handlebars-to-Twig transpiler and fetch-command decisions

This project models, in Dafny, the core of the Handoff Drupal module:

- **The transpiler** (`src/TwigTranspile.php`). It walks an already parsed
  Handlebars tree and appends Twig fragments to a flat buffer. Text nodes
  pass through. Variable nodes become `{{name}}`, with the name rewritten
  under the innermost loop variable. `if`, `unless` and `each` blocks wrap
  their children in `{% if %}`, `{% if not %}` and `{% for %}` tags. `render`
  joins the fragments with single spaces. The PHP object's two mutable
  fields, the fragment buffer and the iterator stack, are the state
  `TwigTranspile.Transpiler`. Every handler threads that state through. A
  PHP exception is a `Failure` carrying its message.
- **Four pure decisions of the `handoff:fetch` Drush command**
  (`src/Drush/Commands/HandoffCommands.php`):
  - turning a component id into a directory name;
  - whether an existing export is overwritten;
  - which version of the fetched component is imported;
  - the property schema written to `NAME.component.yml`.

  The user's answer to the overwrite prompt, the decoded HTTP response and
  the state of the export directory are parameters.

Files:

- `Wrappers.dfy`: `Option` and `Result`.
- `Strings.dfy`: the PHP string functions the transpiler calls, which are
  `str_contains`, `str_replace`, `explode`, `implode`, `substr($s, 0, 1)`
  and `end`. It also proves facts relating them, for example that
  `str_replace` is `implode` over `explode`.
- `TwigTranspile.dfy`: the handlers and `render`.
- `TranspileProperties.dfy`: the properties of the transpiler.
- `HandoffCommands.dfy`: the command's decisions and their properties.

Termination of the mutually recursive walk rests on a size measure of the
tree.

### Behaviour of the code worth knowing

- Interpolations are written `{{name}}`, with no spaces inside the braces
  (src/TwigTranspile.php:57).
- Every occurrence of `this.` in a name is replaced by the loop variable
  and a dot, wherever it occurs in the name (`TranspileProperties.ReplacesEveryThis`).
- Inside `{{#each items}}`, the loop variable is `i`. So `{{i}}` becomes the
  loop index, while `{{items}}` is printed unchanged
  (`TranspileProperties.RenderEachOwnName` and
  `TranspileProperties.PathNameInsideEachUnchanged`).
- Each block's children are followed by an empty fragment. This is the
  `null` returned by `program`, which `render` joins like any other
  fragment. A block with one child therefore renders with two spaces
  before its closing tag.
- Blocks other than `if`, `each` and `unless` are ignored, children
  included.
- The iterator pop follows the children's walk directly, with no `finally`.
  A failure discards the whole state, so the model cannot show a stack left
  behind by an exception.
- The loop variable counts as active only when it is PHP-truthy. A path
  whose last segment is empty or starts with `0` pushes `""` or `"0"`,
  which leaves names unrewritten (`TranspileProperties.EmittedTopOnly`).

In `fetch`, the version resolved from the data is only assigned to a local
variable. The stored requested version is therefore unchanged.

## Model

| member | source | states |
|---|---|---|
| TwigTranspile.Program | src/TwigTranspile.php:148-171 | Walking a node list only appends fragments and leaves the iterator stack as it was. A failure is always the unknown-node-type exception. |
| TwigTranspile.Dispatch | src/TwigTranspile.php:155-169 | Each node kind either appends fragments with the stack unchanged or raises the unknown-node-type exception. |
| TwigTranspile.BlockNode | src/TwigTranspile.php:66-79 | Dispatching on a block name keeps the stack and only appends fragments. |
| TwigTranspile.IfBlock | src/TwigTranspile.php:87-92 | An `if` block appends fragments and keeps the stack. A failure among its children propagates. |
| TwigTranspile.UnlessBlock | src/TwigTranspile.php:124-129 | An `unless` block appends fragments and keeps the stack. A failure among its children propagates. |
| TwigTranspile.EachBlock | src/TwigTranspile.php:100-116 | After an `each` block the iterator stack is exactly what it was before, and the buffer has only grown. |
| Strings.FirstChar | src/TwigTranspile.php:110 | `substr($s, 0, 1)` is empty exactly for the empty string. Otherwise it is the string's first character, which is its first byte for ASCII text (see Left out for other text). |
| Strings.ReplaceAllIsImplodeExplode | src/TwigTranspile.php:53-54 | `str_replace` equals joining, with the replacement, the pieces between the occurrences of the needle. |
| Strings.ExplodeSingle | src/TwigTranspile.php:105-106 | `explode` gives a single piece exactly when the separator does not occur. |
| Strings.ImplodeExplode | src/TwigTranspile.php:106-107 | Joining the pieces of `explode` with the separator gives back the string. |
| Strings.ExplodePiecesFree | src/TwigTranspile.php:106-107 | No piece of `explode` contains the separator. |
| TranspileProperties.ResolveNameRules | src/TwigTranspile.php:43-58 | Name rewriting, case by case. With no active iterator the name is unchanged. The loop variable's own name becomes `loop.index0`. `this` becomes the loop variable. Every `this.` becomes the variable followed by a dot. Any other name is unchanged. |
| TranspileProperties.ResolveNameTopOnly | src/TwigTranspile.php:46-47 | Name rewriting depends on the stack only through its innermost active iterator. |
| TranspileProperties.ReplacesEveryThis | src/TwigTranspile.php:53-54 | Under a one-character loop variable `v`, a name `A` `this.` `B` `this.` `C`, with no `t` in `A`, `B` or `C`, has both occurrences replaced. It becomes `A` `v.` `B` `v.` `C`, not only the first. |
| TranspileProperties.LastSegmentAfterLastDot | src/TwigTranspile.php:105-108 | The last piece of a dotted path is the text after its last dot, or the whole path when there is no dot. |
| TranspileProperties.IteratorNameSpec | src/TwigTranspile.php:105-110 | The loop variable is the first character after the path's last dot. It is empty when the path ends in a dot or is empty. |
| TranspileProperties.IteratorNameOfPath | src/TwigTranspile.php:105-110 | For a path `x.y` with a dot-free, non-empty `y`, the loop variable is `y`'s first character. |
| TranspileProperties.ProgramFrame | src/TwigTranspile.php:148-171 | A walk appends exactly the fragments the same nodes emit from an empty buffer, and restores the stack. Its failure is the same failure. |
| TranspileProperties.EmittedTopOnly | src/TwigTranspile.php:46-47 | Two stacks with the same innermost active iterator give the same output. An empty stack, a `""` top and a `"0"` top all behave alike. |
| TranspileProperties.EmittedAppend | src/TwigTranspile.php:155-170 | The fragments of a concatenated node list are the first part's followed by the second's, both under the same stack. The first failure wins. |
| TranspileProperties.UnknownNodeTypeAborts | src/TwigTranspile.php:166-167 | When the nodes before it succeed, a node of unknown type makes the whole walk fail. The message is `Unknown node type: ` followed by the type, whatever comes after the node. |
| TranspileProperties.ScopeRestoredAfterNode | src/TwigTranspile.php:110-114 | After any node, including a closed nested `each`, a variable resolves under the stack from before the node. |
| TranspileProperties.EmitsText | src/TwigTranspile.php:32-35 | A text node emits exactly its value. |
| TranspileProperties.EmitsVar | src/TwigTranspile.php:43-58 | A variable node emits one fragment, `{{` + the rewritten name + `}}`. |
| TranspileProperties.EmitsIf | src/TwigTranspile.php:87-92 | An `if` emits `{% if ARGS %}`, its children under the same stack, `""` and `{% endif %}`. Missing arguments print as empty. |
| TranspileProperties.EmitsUnless | src/TwigTranspile.php:124-129 | An `unless` emits `{% if not ARGS %}`, its children, `""` and `{% endif %}`. |
| TranspileProperties.EmitsEach | src/TwigTranspile.php:100-116 | An `each` with a path emits `{% for c in PATH %}`, with `c` the loop variable and PATH the full path. Its children are walked with `c` pushed, then `""` and `{% endfor %}` follow. |
| TranspileProperties.EmitsNothingForEachWithoutArgs | src/TwigTranspile.php:102 | An `each` without arguments emits nothing and leaves the stack as it was, whatever its children. |
| TranspileProperties.IgnoresUnknownBlock | src/TwigTranspile.php:68-78 | A block named other than `if`, `each` or `unless` emits nothing and raises nothing, even over unknown children. |
| TranspileProperties.RenderAppend | src/TwigTranspile.php:136-140 | Rendering a concatenated template gives the two parts' renderings joined by one space. When one part emits no fragment, the result is just the other part's rendering. The first failure wins. |
| TranspileProperties.RenderTexts | src/TwigTranspile.php:136-140 | A template of text nodes renders to those texts joined by single spaces. |
| TranspileProperties.RenderSingleText | src/TwigTranspile.php:32-35 | A single text node renders to exactly its value. |
| TranspileProperties.RenderSingleVar | src/TwigTranspile.php:43-58 | With no loop open, a variable renders as `{{name}}` with the name unchanged. |
| TranspileProperties.RenderEach | src/TwigTranspile.php:100-116 | A template of one `each` block renders to its loop header, its children's fragments, `""` and `{% endfor %}`, joined by spaces. |
| TranspileProperties.RenderEachThis | src/TwigTranspile.php:51-52 | `{{#each P}}{{this}}{{/each}}` renders as `{% for c in P %} {{c}}  {% endfor %}`. |
| TranspileProperties.RenderEachOwnName | src/TwigTranspile.php:48-49 | Inside `{{#each P}}`, `{{c}}` renders as `{{loop.index0}}`. |
| TranspileProperties.PathNameInsideEachUnchanged | src/TwigTranspile.php:48-55 | Inside `{{#each items}}`, `{{items}}` is not the loop variable and is emitted unchanged. |
| TranspileProperties.EmitsNestedEach | src/TwigTranspile.php:110-114 | In nested loops the inner `this` is the inner variable. After the inner loop closes, `this` is the outer variable again. |
| TranspileProperties.RenderIf | src/TwigTranspile.php:87-92 | `{{#if c}}b{{/if}}` renders as `{% if c %} b  {% endif %}`. |
| TranspileProperties.RenderUnless | src/TwigTranspile.php:124-129 | `{{#unless c}}b{{/unless}}` renders as `{% if not c %} b  {% endif %}`, the negated condition. |
| HandoffCommands.SanitizeId | src/Drush/Commands/HandoffCommands.php:93 | The directory name holds only `[a-zA-Z0-9_]` and is no longer than the id. |
| HandoffCommands.SanitizeIsSubsequence | src/Drush/Commands/HandoffCommands.php:93 | The name keeps the id's characters in their original order. |
| HandoffCommands.SanitizeKeepsIdChars | src/Drush/Commands/HandoffCommands.php:93 | Every allowed character occurs as often in the name as in the id, and every other character not at all. |
| HandoffCommands.SanitizeKeepsValidId | src/Drush/Commands/HandoffCommands.php:93 | An id made only of allowed characters is kept as it is. |
| HandoffCommands.SanitizeIdempotent | src/Drush/Commands/HandoffCommands.php:93 | Sanitising a sanitised name changes nothing. |
| HandoffCommands.SanitizeAppend | src/Drush/Commands/HandoffCommands.php:93 | Sanitising a concatenation sanitises each part separately. |
| HandoffCommands.ComponentDir | src/Drush/Commands/HandoffCommands.php:86-94 | The export directory starts with the theme's `components/` directory, and the part after it holds neither `/` nor `.`. It is the `components` directory itself exactly when the id has no character of `[a-zA-Z0-9_]`. |
| HandoffCommands.ValidateComponent | src/Drush/Commands/HandoffCommands.php:97-123 | The export proceeds in three cases. There may be no earlier export. The earlier export may record the requested version and force be set. Or it may record another version, or none, and the user confirm. |
| HandoffCommands.SelectVersion | src/Drush/Commands/HandoffCommands.php:196-217 | A set non-`latest` version selects its entry. A missing one fails with `Could not find version V in NAME.` without force, and falls back to `latest` (possibly null) with force. `latest` selects `data['latest']` if set and otherwise fails with `Could not find latest for NAME.`. The selection is always the entry under the requested key or under `latest`, and a failure means the requested entry is unset and force cannot help. |
| HandoffCommands.Fetch | src/Drush/Commands/HandoffCommands.php:183-221 | A failed request fails with `Could not find NAME in library.`. Otherwise the selected component is stored. Name, requested version and force flag are never changed. |
| HandoffCommands.ForcedFetchOfVersionSucceeds | src/Drush/Commands/HandoffCommands.php:198-207 | With force, fetching a specific version never fails once the data is in hand. |
| HandoffCommands.SchemaProperties | src/Drush/Commands/HandoffCommands.php:316-322 | There is one schema entry per property, under the same key and in the same order. |
| HandoffCommands.SchemaFind | src/Drush/Commands/HandoffCommands.php:316-322 | Looking a key up in the schema gives the entry for the property under that key: its type copied, its name as title, and its description or `''`. No key is added or lost. |
| HandoffCommands.SchemaKeys | src/Drush/Commands/HandoffCommands.php:316-322 | The schema's keys are exactly the properties' keys, each once. |
| HandoffCommands.MakeYaml | src/Drush/Commands/HandoffCommands.php:309-329 | The document has the component title as name, status `experimental` and group `handoff`. Its props are an `object` with no required entries and one entry per property key. |

## Left out

- Handlebars parsing (`getTree`): the transpiler receives an already parsed tree.
- A `program` argument that is an object rather than an array: only the array form is modelled.
- Strings.FirstChar: strings are sequences of Unicode characters, so a non-ASCII first character of an `each` segment is taken whole. PHP's `substr` at src/TwigTranspile.php:110 takes only its first byte. For `{{#each éléments}}` PHP pushes the byte `\xC3` and leaves `{{é}}` unchanged at line 48, whereas the model pushes `é` and rewrites `{{é}}` to `{{loop.index0}}`. The same holds for `IteratorName` and everything that rests on it.
- Loose `==` at src/TwigTranspile.php:48 is modelled as string equality. The two differ only when both sides are numeric strings, such as a name `01` under the loop variable `1`.
- Repeated `render` calls on one object accumulate the buffer. The model renders from a fresh buffer.
- The iterator stack left behind after an exception: a failure discards the state.
- The Guzzle HTTP request and JSON decoding. They are the `Response` parameter, and a body that does not decode behaves as an empty map.
- The URL and theme prompts (`askUrl`, `chooseTheme`), configuration and logging.
- The overwrite prompt itself. Its answer is a parameter of `ValidateComponent`.
- `mkdir`, `file_get_contents`, `file_put_contents`, and YAML encoding and decoding. A recorded version that is not a string is modelled as absent, which strict `===` treats alike.
- `exportComponent`, `makeTwigFromComponent` (which halts through `dd()`), `getSharedCSS` and the `date()` call are not modelled.
- Property values that are not strings, and component ids that are not strings.
- HandoffCommands.ValidateComponent: a stop is modelled as the outcome `Stop`. In PHP the method returns null, and the chained `exportComponent()` call on it then raises an error.
