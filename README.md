# ORIS core, modelled in Dafny

ORIS is a set of small C# web-server projects. This Dafny model covers the
parts of them that hold the logic:

- **The HTML template engine**, in two versions. `Mini` is the renderer of the
  Mini-HttpServer. `Hw4` is the renderer of Homework 4. Both render `${path}`
  placeholders and nested `$if(...) ... $else ... $endif` and
  `$foreach(var x in path) ... $endfor` blocks against a model object. The
  model is a small value datatype (`TemplateValues.Value`) that stands in for
  dictionaries, objects with properties, lists and strings.
  - `template_syntax.dfy` holds tag matching.
  - `template_values.dfy` holds path lookup and loop scopes.
  - `template_engine.dfy` holds rendering.
  - `template_laws.dfy` holds the laws about whole templates: text without
    directives, placeholders, `$if` blocks and malformed directives.
  - `foreach_laws.dfy` holds the laws about `$foreach` blocks.
- **Two expression-to-SQL translators.** `OrmContext` is the Mini-HttpServer's
  `ORMContext`. `OrmLibrary` is Homework 6's `ORM`. Each turns a predicate
  expression tree (`OrmExpressions.Expr`) into a `WHERE` clause and builds
  `SELECT`, `CREATE TABLE`, `INSERT` and `UPDATE` text.
- **The tour catalogue's filters** (`ToursFilter`) and the star display of a
  tour (`TourModel`).
- **Request routing to endpoint classes** (`Routing`).
- **Static-file resolution**, in two versions. `StaticBuffer` is Homework 5's
  `Buffer.TryGetFile`. `PublicFiles` is the Mini-HttpServer's
  `GetResponseBytes`.
- **The invoice status processor's retry loop** (`Invoices`). The `invoices`
  table is a class whose rows the processor fetches and updates.

The string helpers that several modules share (ordinal and ASCII
case-insensitive comparison, search, split and join, trimming, decimal
digits) live in `text.dfy`.

Inputs that the C# code reads from its environment are parameters here:

- the files on disk and the directory listing (`FileSystem`, `listing`);
- the random coin of the processor (`draws`);
- the configured retry limit (`maxErrorRetries`);
- the directory separator (`sep`);
- the set of types found by reflection (`types`).

The template engine's mutual recursion can diverge. A `fuel` parameter
bounds it, and exhausting the fuel gives `None`.

Where the two versions of a component differ, a `Dialect` parameter or a
separate module keeps both behaviours. Examples:

- `Hw4` compares tags case-sensitively, but its `$if` header needs no space.
- `Mini` trims the collection path of `$foreach`, but `Hw4` does not.
- `OrmLibrary` does not escape quotes in string constants, and it has no `OR`.

## Model

| member | source | states |
|---|---|---|
| TemplateSyntax.MatchingEnd | Mini-HttpServer/MiniHttpServer/TemplateEngine/HttpTemplateRenderer.cs:206-245 | the end-tag search returns -1 or the index of a closing tag at or after the start |
| TemplateSyntax.FindMatchingEndTag | Mini-HttpServer/MiniHttpServer/TemplateEngine/HttpTemplateRenderer.cs:206-245 | the depth-counting loop returns exactly the index the scan specification gives |
| TemplateSyntax.MatchingEndIsFirstBalancingClose | Homework_4/TemplateEngine/HttpTemplateRenderer.cs:189-213 | the search gives -1 exactly when no closing tag balances the opening ones; otherwise it gives the first closing tag at which the counted depth returns to zero |
| TemplateSyntax.ScanStopsAtClose | Homework_4/TemplateEngine/HttpTemplateRenderer.cs:195-211 | the scan stops only on a closing tag, and a found index lies within the text |
| TemplateSyntax.IfHeaderAt | Mini-HttpServer/MiniHttpServer/TemplateEngine/HttpTemplateRenderer.cs:92 | a recognised `$if(...)` header starts at the given position and ends with `)` inside the text; the condition is no longer than the header |
| TemplateSyntax.IfHeaderRecognised | Homework_4/TemplateEngine/HttpTemplateRenderer.cs:94 | `$if(c)` with no `)` in `c` is recognised by Homework 4 with `c` as its condition unless `c` holds a line feed; Mini refuses an empty `c` and takes a `c` that starts with a character other than white space |
| TemplateSyntax.ForHeaderAt | Homework_4/TemplateEngine/HttpTemplateRenderer.cs:146 | a recognised `$foreach(var x in p)` header starts at the position and ends with `)` inside the text |
| TemplateSyntax.ForHeaderRecognised | Homework_4/TemplateEngine/HttpTemplateRenderer.cs:146-150 | `$foreach(var x in p)`, with a word `x` and a path `p` that starts with a character other than white space and holds no `)`, is recognised by both versions with `x` as the loop variable and `p` as the collection path |
| TemplateSyntax.ForHeaderWithoutVar | Mini-HttpServer/MiniHttpServer/TemplateEngine/HttpTemplateRenderer.cs:135-147 | `$foreach(x in p)` without `var` is refused by Homework 4 and recognised by Mini, whose `var` is optional, with the same two groups |
| TemplateSyntax.VarWithoutItem | Homework_4/TemplateEngine/HttpTemplateRenderer.cs:146 | Homework 4 refuses `$foreach(var in p)`: after `var` it reads `in` as the loop variable and then misses the keyword `in` |
| TemplateSyntax.PlaceholderAt | Homework_4/TemplateEngine/HttpTemplateRenderer.cs:221-230 | a recognised `${...}` placeholder starts with `${` and ends at the first `}` after it |
| TemplateSyntax.PlaceholderRecognised | Homework_4/TemplateEngine/HttpTemplateRenderer.cs:224 | `${c}` with no `}` in `c` is recognised, ending at that `}`, except for an empty `c` in Mini and a `c` holding a line feed in Homework 4 |
| TemplateSyntax.IfBlockAt | Mini-HttpServer/MiniHttpServer/TemplateEngine/HttpTemplateRenderer.cs:81-100 | an `$if` block exists exactly when the matching `$endif` exists and its text has a header; its body is the text between the header and the matching `$endif` |
| TemplateSyntax.ForBlockAt | Mini-HttpServer/MiniHttpServer/TemplateEngine/HttpTemplateRenderer.cs:124-155 | a `$foreach` block exists exactly when the matching `$endfor` exists and its text has a header; its body is the text between the header and the `$endfor` |
| TemplateSyntax.EmptyPlaceholder | Homework_4/TemplateEngine/HttpTemplateRenderer.cs:223 | `${}` is a placeholder for Homework 4's `.*?` pattern and not for Mini's `[^}]+` pattern |
| TemplateSyntax.IfHeaderSpacing | Homework_4/TemplateEngine/HttpTemplateRenderer.cs:94 | Homework 4's `$if\(` pattern refuses a space before the parenthesis, and Mini's `\s*` accepts it |
| TemplateValues.IndexOfKey | Mini-HttpServer/MiniHttpServer/TemplateEngine/HttpTemplateRenderer.cs:278-286 | the found key is the first that equals the name under the comparer; -1 means none does |
| TemplateValues.FindKeyIgnoringCase | Mini-HttpServer/MiniHttpServer/TemplateEngine/HttpTemplateRenderer.cs:278-286 | the `foreach` over the dictionary's entries returns the value of the first key equal to the name ignoring case |
| TemplateValues.WalkPath | Mini-HttpServer/MiniHttpServer/TemplateEngine/HttpTemplateRenderer.cs:304-321 | the loop over the dotted path's parts yields exactly the property walk of the specification |
| TemplateValues.GetValue | Homework_4/TemplateEngine/HttpTemplateRenderer.cs:232-267 | the path lookup, first through the dictionary and then through the property walk, yields `PathValue` |
| TemplateValues.PathValueLaws | Homework_4/TemplateEngine/HttpTemplateRenderer.cs:232-267 | a null model or a blank path gives null; a key found by exact comparison in a dictionary gives its value; Mini then tries the key ignoring case and otherwise gives null; Homework 4 falls through to the dictionary's own properties; any other value reads the named property, ignoring case in Mini |
| TemplateValues.MissingKeyFallsThrough | Homework_4/TemplateEngine/HttpTemplateRenderer.cs:240-262 | `Count` on a dictionary without that key gives the number of entries in Homework 4 and null in Mini |
| TemplateValues.MiniTrueIsHw4True | Homework_4/TemplateEngine/HttpTemplateRenderer.cs:114-121 | whatever Mini counts as true Homework 4 counts as true, and the two agree on null and booleans |
| TemplateValues.Items | Homework_4/TemplateEngine/HttpTemplateRenderer.cs:155-158 | a list gives its elements and a dictionary its key/value pairs; a string gives nothing in Mini and its characters in Homework 4; any other value gives nothing |
| TemplateValues.Put | Mini-HttpServer/MiniHttpServer/TemplateEngine/HttpTemplateRenderer.cs:168-171 | after `dict[key] = value` the key reads back the value; the dictionary grows by one entry exactly when the key was absent; every entry keeps the spelling of its key, and entries under other keys are unchanged |
| TemplateValues.PutLookup | Mini-HttpServer/MiniHttpServer/TemplateEngine/HttpTemplateRenderer.cs:168-171 | after `dict[key] = value`, the key reads back the value, any other key reads back what it read before, and keys stay distinct |
| TemplateValues.CopyIntoDistinct | Mini-HttpServer/MiniHttpServer/TemplateEngine/HttpTemplateRenderer.cs:165-169 | copying a parent with distinct keys into a scope whose keys differ from them appends the parent's entries |
| TemplateValues.LoopScopeBindings | Mini-HttpServer/MiniHttpServer/TemplateEngine/HttpTemplateRenderer.cs:161-171 | the loop scope is a dictionary with distinct keys in which the loop variable reads back the item and every other name reads back what the parent model gave |
| TemplateEngine.SplitElse | Mini-HttpServer/MiniHttpServer/TemplateEngine/HttpTemplateRenderer.cs:105-110 | the body splits at its first `$else` into the text before it and the text after it; without `$else` the else part is empty |
| TemplateEngine.ProcessLogic | Homework_4/TemplateEngine/HttpTemplateRenderer.cs:59-80 | a text with no `$if` and no `$foreach` comes back unchanged |
| TemplateLaws.MalformedIfLeavesText | Homework_4/TemplateEngine/HttpTemplateRenderer.cs:85-95 | when the first directive is an `$if` without a balancing `$endif` or with a header the expression refuses, the whole template comes back unchanged, the directives after it included |
| TemplateLaws.UnclosedIfLeavesText | Homework_4/TemplateEngine/HttpTemplateRenderer.cs:87-88 | an `$if(` with no `$endif` after it leaves the whole template unchanged, `$foreach` blocks after it included |
| ForeachLaws.MalformedForeachLeavesText | Homework_4/TemplateEngine/HttpTemplateRenderer.cs:140-147 | when the first directive is a `$foreach` without a balancing `$endfor` or with a header the expression refuses, the whole template comes back unchanged, the directives after it included |
| TemplateEngine.AppendItems | Homework_4/TemplateEngine/HttpTemplateRenderer.cs:157-178 | the `foreach` that appends each item's rendered body gives exactly the concatenation that `ExpandItems` specifies, and it fails when any item fails |
| ForeachLaws.ExpandWithoutDirectives | Homework_4/TemplateEngine/HttpTemplateRenderer.cs:157-178 | for a body without `$if` and `$foreach`, the loop over the items gives the concatenation of one pass per item, in order, each pass being the body with its placeholders read in that item's loop scope |
| TemplateEngine.ExpandStopsAtNone | Homework_4/TemplateEngine/HttpTemplateRenderer.cs:157-178 | once one item's body cannot be rendered, the whole loop cannot be rendered |
| TemplateEngine.BuildLoopScope | Mini-HttpServer/MiniHttpServer/TemplateEngine/HttpTemplateRenderer.cs:161-171 | the built scope is the parent's entries copied, then the loop variable set |
| TemplateLaws.ReplaceVariablesPlain | Mini-HttpServer/MiniHttpServer/TemplateEngine/HttpTemplateRenderer.cs:247-255 | a text without `${` is left as it is by variable replacement |
| TemplateLaws.ReplaceOnePlaceholder | Homework_4/TemplateEngine/HttpTemplateRenderer.cs:221-230 | in a text whose only `$` starts `${c}`, the placeholder is replaced by the display of the value at the trimmed path `c`, and the text around it is kept |
| TemplateLaws.RenderWithoutDirectives | Mini-HttpServer/MiniHttpServer/TemplateEngine/HttpTemplateRenderer.cs:34-56 | a template without directives and placeholders renders as itself; in Mini it also goes through the final cleanup |
| TemplateLaws.RenderEmpty | Mini-HttpServer/MiniHttpServer/TemplateEngine/HttpTemplateRenderer.cs:36-37 | an empty template renders as the empty string in both dialects, whatever the model and fuel |
| TemplateLaws.IfKeepsOneBranch | Mini-HttpServer/MiniHttpServer/TemplateEngine/HttpTemplateRenderer.cs:81-122 | `pre $if(c) a $else b $endif post` renders to `pre`, then `a` when `c` is true in the model and `b` otherwise, then `post`, in both dialects |
| TemplateLaws.IfChoosesBranch | Homework_4/TemplateEngine/HttpTemplateRenderer.cs:85-133 | an `$if` block that is the first directive is replaced by the branch its condition selects, that branch expanded first, and the text around it is expanded again; branches may hold other directives |
| TemplateLaws.FalseIfDropsFirstBranch | Homework_4/TemplateEngine/HttpTemplateRenderer.cs:113-126 | under a false condition the first branch is dropped unexpanded, whatever directives it holds, and the else branch takes the block's place |
| TemplateLaws.IfTemplateBlock | Mini-HttpServer/MiniHttpServer/TemplateEngine/HttpTemplateRenderer.cs:84-100 | in such a template the `$if` block is found, with the word as its condition and `a $else b` as its body |
| ForeachLaws.ForeachStep | Homework_4/TemplateEngine/HttpTemplateRenderer.cs:138-183 | a `$foreach(var x in p)` block that is the first directive is replaced by the expansion of its body over the items of the collection `p` names (the path trimmed in Mini), and the resulting text is expanded again; a failing pass fails the whole |
| ForeachLaws.ForeachConcatenates | Homework_4/TemplateEngine/HttpTemplateRenderer.cs:157-183 | for a body without directives, the block is replaced by one pass per item in order, each the body with its placeholders read in the loop scope of that item |
| ForeachLaws.ForeachOverNothing | Homework_4/TemplateEngine/HttpTemplateRenderer.cs:154-158 | a path that names null, a boolean, a number, an object or (in Mini) a string gives no pass: the block is removed and the text around it expanded again |
| ForeachLaws.ForeachOverNoItems | Homework_4/TemplateEngine/HttpTemplateRenderer.cs:157-183 | a collection without items removes the block |
| ForeachLaws.ForeachRepeatsPlainBody | Mini-HttpServer/MiniHttpServer/TemplateEngine/HttpTemplateRenderer.cs:124-189 | a `$`-free body inside `$`-free text renders as that text with the body repeated once per item |
| ForeachLaws.BareHeaderLeavesText | Homework_4/TemplateEngine/HttpTemplateRenderer.cs:146-147 | Homework 4 leaves a template whose first directive is `$foreach(x in p)` unchanged, the directives after it included |
| ForeachLaws.VarWithoutItemLeavesText | Homework_4/TemplateEngine/HttpTemplateRenderer.cs:146-147 | Homework 4 leaves a template whose first directive is `$foreach(var in p)` unchanged |
| ForeachLaws.RefusedHeaderLeavesText | Homework_4/TemplateEngine/HttpTemplateRenderer.cs:146-147 | any `$foreach(x in p)` header that Homework 4's expression refuses leaves the template unchanged |
| OrmContext.SqlOperator | Mini-HttpServer/MiniHttpServer/ORM/ORMContext.cs:319-333 | an operator exists exactly for comparisons, `AndAlso` and `OrElse`; the other node types are refused |
| OrmContext.OperatorRoundTrip | Mini-HttpServer/MiniHttpServer/ORM/ORMContext.cs:319-333 | the operator table is one-to-one: the SQL operator determines the node type and back |
| OrmContext.StringConstantRoundTrip | Mini-HttpServer/MiniHttpServer/ORM/ORMContext.cs:335-350 | a string constant is quoted with its quotes doubled, so unquoting the SQL literal gives back the string |
| OrmContext.StringConstantInjective | Mini-HttpServer/MiniHttpServer/ORM/ORMContext.cs:335-350 | two strings with the same SQL literal are equal |
| OrmContext.ParseSucceedsIff | Mini-HttpServer/MiniHttpServer/ORM/ORMContext.cs:247-316 | an expression translates exactly when it is built from supported comparisons, `&&`/`\|\|`, member accesses and constants |
| OrmContext.BinaryShape | Mini-HttpServer/MiniHttpServer/ORM/ORMContext.cs:273-289 | a comparison translates to `left op right`; `&&` and `\|\|` translate to a parenthesised `AND` or `OR` |
| OrmContext.BuildSqlQuery | Mini-HttpServer/MiniHttpServer/ORM/ORMContext.cs:234-245 | the query exists exactly when the predicate translates |
| OrmContext.QueryParts | Mini-HttpServer/MiniHttpServer/ORM/ORMContext.cs:234-245 | the query is `SELECT * FROM <type>s WHERE `, then the translated predicate, then ` LIMIT 1` for a single result |
| OrmContext.SqlTypeLaws | Mini-HttpServer/MiniHttpServer/ORM/ORMContext.cs:206-232 | a nullable value type maps to the same column type as the type itself, and `TEXT` is chosen exactly for the types the table does not list |
| OrmContext.ColumnNameReadBack | Mini-HttpServer/MiniHttpServer/ORM/ORMContext.cs:34-49 | a column definition starts with the property name, followed by the first space |
| OrmContext.IdentityOnlyForId | Mini-HttpServer/MiniHttpServer/ORM/ORMContext.cs:38-46 | a column definition ends with `PRIMARY KEY` exactly when the property is the `Id` |
| OrmContext.CreateTableSql | Mini-HttpServer/MiniHttpServer/ORM/ORMContext.cs:29-74 | the loop over the properties builds `CREATE TABLE IF NOT EXISTS` with one definition per property, in order |
| OrmContext.WritableColumns | Mini-HttpServer/MiniHttpServer/ORM/ORMContext.cs:78-80 | the inserted and updated columns are exactly the writable properties other than `Id` |
| OrmContext.WritableColumnsAppend | Mini-HttpServer/MiniHttpServer/ORM/ORMContext.cs:78-80 | the selection keeps reflection order and multiplicity: selecting from two lists in turn is selecting from their concatenation |
| OrmContext.UpdateNothingIff | Mini-HttpServer/MiniHttpServer/ORM/ORMContext.cs:159-189 | there is nothing to update exactly when no property is writable apart from `Id` |
| OrmLibrary.SqlOperator | Homework_6/MyORMLibrari/ORM.cs:174-187 | an operator exists exactly for comparisons and `AndAlso`; `OrElse` is refused |
| OrmLibrary.ParseSucceedsIff | Homework_6/MyORMLibrari/ORM.cs:153-172 | an expression translates exactly when its nodes are supported comparisons and `&&` over members and non-null constants |
| OrmLibrary.BinaryShape | Homework_6/MyORMLibrari/ORM.cs:157-162 | every binary node translates to `(left op right)` |
| OrmLibrary.ClauseBalanced | Homework_6/MyORMLibrari/ORM.cs:157-162 | over plain members and numbers, the translated clause has balanced parentheses |
| OrmLibrary.StringConstantRoundTripIff | Homework_6/MyORMLibrari/ORM.cs:189-192 | because quotes are not escaped, a string constant reads back from its SQL literal exactly when it contains no quote |
| OrmLibrary.BuildSqlQuery | Homework_6/MyORMLibrari/ORM.cs:144-151 | the query exists exactly when the predicate translates |
| OrmLibrary.QueryShape | Homework_6/MyORMLibrari/ORM.cs:144-151 | the query is `SELECT * FROM <lower-case type> WHERE <clause>`, with ` LIMIT 1` for a single result |
| OrmLibrary.TerminatedRemoved | Homework_6/MyORMLibrari/ORM.cs:30-36 | removing the last character after appending `part,` per part gives the comma-joined parts |
| OrmLibrary.InsertSql | Homework_6/MyORMLibrari/ORM.cs:19-50 | the statement is `INSERT INTO t (cols) VALUES (@cols)`; with no columns, the removed characters leave `INSERT INTO t ) VALUES )` |
| OrmLibrary.UpdateSql | Homework_6/MyORMLibrari/ORM.cs:91-117 | the statement is `UPDATE t SET c = @c, ... WHERE id = @id`; with no columns, `SET` is followed directly by the `WHERE` |
| OrmLibrary.ColumnListReadBack | Homework_6/MyORMLibrari/ORM.cs:24-38 | the column list splits back into the columns at its commas |
| TourModel.StarsPositions | Mini-HttpServer/MiniHttpServer/Model/Tour.cs:37-46 | the display has five characters; position j is filled exactly when j+1 is at most the rating, and hollow otherwise |
| TourModel.StarsExtremes | Mini-HttpServer/MiniHttpServer/Model/Tour.cs:37-46 | a rating of five or more shows five filled stars, and a rating of zero or less shows five hollow ones |
| TourModel.NewTourShowsFiveStars | Mini-HttpServer/MiniHttpServer/Model/Tour.cs:21 | a new tour's default rating of 5 shows five filled stars |
| TourModel.StarsDisplay | Mini-HttpServer/MiniHttpServer/Model/Tour.cs:37-46 | the loop that appends one star per position builds the display that `Stars` specifies |
| ToursFilter.ParseNumber | Mini-HttpServer/MiniHttpServer/Endpoints/ToursEndpoint.cs:334-339 | a parsed number is non-negative and fits an `int`; a blank input gives none |
| ToursFilter.ParseNumberKeepsDigits | Mini-HttpServer/MiniHttpServer/Endpoints/ToursEndpoint.cs:334-339 | parsing ignores every character that is not a digit |
| ToursFilter.ParseNumberRoundTrip | Mini-HttpServer/MiniHttpServer/Endpoints/ToursEndpoint.cs:334-339 | the decimal text of any `int`-sized natural number parses back to it |
| ToursFilter.FilterTours | Mini-HttpServer/MiniHttpServer/Endpoints/ToursEndpoint.cs:240-264 | the filtered tours are exactly those that pass every criterion, in their original order |
| ToursFilter.FilterToursAppend | Mini-HttpServer/MiniHttpServer/Endpoints/ToursEndpoint.cs:240-264 | filtering a concatenation filters each part |
| ToursFilter.NumericCriteria | Mini-HttpServer/MiniHttpServer/Endpoints/ToursEndpoint.cs:243-262 | a passing tour's price is within the bounds, its nights equal the filter and its adults are at least the filter's |
| ToursFilter.DefaultFiltersIff | Mini-HttpServer/MiniHttpServer/Endpoints/ToursEndpoint.cs:385-396 | with the default parameters a tour passes exactly when its price is between 0 and 2000000 |
| ToursFilter.TextCriterionLaws | Mini-HttpServer/MiniHttpServer/Endpoints/ToursEndpoint.cs:218-262 | a blank text filter lets everything through, a set filter refuses a missing field, and the hotel search is a lower-case substring test |
| ToursFilter.AllowedStars | Mini-HttpServer/MiniHttpServer/Endpoints/ToursEndpoint.cs:305-315 | the allowed ratings are exactly the checkbox entries that parse as integers |
| ToursFilter.StarsAllowedIff | Mini-HttpServer/MiniHttpServer/Endpoints/ToursEndpoint.cs:305-315 | a rating is allowed when no entry parses or some entry parses to it, and an unparsable entry changes nothing |
| ToursFilter.CategoriesAreConjoined | Mini-HttpServer/MiniHttpServer/Endpoints/ToursEndpoint.cs:266-332 | an empty category counts as no category, and removing a category never excludes a tour |
| ToursFilter.OptionsAreAlternatives | Mini-HttpServer/MiniHttpServer/Endpoints/ToursEndpoint.cs:269-328 | ticking one more option in the popular, meal or region category never excludes a tour |
| ToursFilter.RegularFlightMatchesAll | Mini-HttpServer/MiniHttpServer/Endpoints/ToursEndpoint.cs:269-283 | the `regular-flight` option accepts every tour |
| ToursFilter.MealRules | Mini-HttpServer/MiniHttpServer/Endpoints/ToursEndpoint.cs:286-302 | `all` excludes ultra all-inclusive, a missing meal plan counts as without food, and unknown meal or popular options accept nothing |
| Routing.FindEndpoint | Mini-HttpServer/MiniHttpServer/Core/Handlers/EndpointsHandler.cs:28-45 | the chosen type is the first `[Endpoint]` class whose name is the endpoint name, or that name plus `Endpoint`, ignoring case |
| Routing.FindMethod | Mini-HttpServer/MiniHttpServer/Core/Handlers/EndpointsHandler.cs:48-56 | the chosen method is the first one whose attribute fits the HTTP method and the route |
| Routing.HandleRequestOutcome | Mini-HttpServer/MiniHttpServer/Core/Handlers/EndpointsHandler.cs:10-61 | a request passes on exactly when its path has no segments, or the endpoint is unknown and a successor exists; it is 404 exactly when the endpoint is unknown with no successor, or no method fits; otherwise the first fitting class and method are invoked |
| Routing.HttpMethodCaseIgnored | Mini-HttpServer/MiniHttpServer/Core/Handlers/EndpointsHandler.cs:66-70 | HTTP methods that differ only in case match the same methods |
| StaticBuffer.Resolve | Homework_5/HttPServer/Shar/Buffer.cs:26-92 | the served path is the 404 page or one of the listed files; a blank path, a path without segments, or a missing directory listing gives the 404 page |
| StaticBuffer.ResolveIsFirstAccepted | Homework_5/HttPServer/Shar/Buffer.cs:45-76 | the served file is the first listed file whose last segments equal the target's, ignoring case; when there is none, the 404 page is served |
| StaticBuffer.CompareLastParts | Homework_5/HttPServer/Shar/Buffer.cs:62-72 | the inner loop reports a match exactly when the last segments all equal the target's, ignoring case |
| StaticBuffer.TryGetFile | Homework_5/HttPServer/Shar/Buffer.cs:26-92 | the method returns exactly what `Resolve` specifies |
| StaticBuffer.SlashIsSeparator | Homework_5/HttPServer/Shar/Buffer.cs:36 | `/` and the directory separator are interchangeable in the request |
| StaticBuffer.TargetCaseIgnored | Homework_5/HttPServer/Shar/Buffer.cs:67 | targets that differ only in case accept the same files |
| PublicFiles.HasExtensionIff | Mini-HttpServer/MiniHttpServer/Shared/GetResponseBytes.cs:20 | a path has an extension exactly when its last file name has a dot that is not the final character |
| PublicFiles.Normalize | Mini-HttpServer/MiniHttpServer/Shared/GetResponseBytes.cs:46-50 | the result is the request path with its leading `/`, `\` and separator characters removed and every remaining `/` and `\` written as the separator; so it does not start with the separator |
| PublicFiles.NormalizeReplacesSlash | Mini-HttpServer/MiniHttpServer/Shared/GetResponseBytes.cs:46 | writing `/` as the separator beforehand does not change the result |
| PublicFiles.NormalizeReplacesBackslash | Mini-HttpServer/MiniHttpServer/Shared/GetResponseBytes.cs:47 | writing `\` as the separator beforehand does not change the result |
| PublicFiles.NormalizeDropsLeadingSeparator | Mini-HttpServer/MiniHttpServer/Shared/GetResponseBytes.cs:50 | a separator in front of the path does not change the result |
| PublicFiles.PlainNameNormalized | Mini-HttpServer/MiniHttpServer/Shared/GetResponseBytes.cs:46-50 | a path of ordinary characters is left as it is |
| PublicFiles.Resolve | Mini-HttpServer/MiniHttpServer/Shared/GetResponseBytes.cs:41-151 | nothing is served for a path whose normalised form contains `..` |
| PublicFiles.TryGetFile | Mini-HttpServer/MiniHttpServer/Shared/GetResponseBytes.cs:41-151 | the method, with its search loop, returns exactly what `Resolve` specifies |
| PublicFiles.TraversalRefused | Mini-HttpServer/MiniHttpServer/Shared/GetResponseBytes.cs:53-59 | a path containing `..` is refused, whatever the file system holds |
| PublicFiles.ResolveChoice | Mini-HttpServer/MiniHttpServer/Shared/GetResponseBytes.cs:61-109 | the direct path is served when it exists; otherwise, when `Public` exists, the first found file ending with the path, or else the first found file; otherwise nothing |
| PublicFiles.LeadingSeparatorIgnored | Mini-HttpServer/MiniHttpServer/Shared/GetResponseBytes.cs:46-50 | a leading separator, or `\` written for the separator, makes no difference to what is served |
| PublicFiles.InvokeServesRootIndex | Mini-HttpServer/MiniHttpServer/Shared/GetResponseBytes.cs:13-17 | a blank request path is served `Public/index.html` when that file exists |
| PublicFiles.InvokeServesDirectoryIndex | Mini-HttpServer/MiniHttpServer/Shared/GetResponseBytes.cs:26-34 | an extensionless name of a directory under `Public` is served that directory's `index.html` when that file exists |
| Invoices.Increment32 | StatusProcessServerKontra/StatusProcessorServer/Program.cs:44 | `retry_count + 1` on an `int` adds one, and wraps to the minimum at the maximum |
| Invoices.PendingRows | StatusProcessServerKontra/StatusProcessorServer/InvoiceProcessorService.cs:20-47 | the fetched rows are exactly the table's `pending` rows |
| Invoices.PendingUniqueIds | StatusProcessServerKontra/StatusProcessorServer/InvoiceProcessorService.cs:27 | a table whose ids are distinct yields fetched rows whose ids are distinct |
| Invoices.Settle | StatusProcessServerKontra/StatusProcessorServer/Program.cs:35-55 | a successful attempt sets `success` and keeps the count; a failed one adds one retry and sets `error` exactly when the limit is reached, `pending` otherwise |
| Invoices.PassUpdates | StatusProcessServerKontra/StatusProcessorServer/Program.cs:30-57 | one pass issues one update per fetched invoice, settled by that invoice's draw |
| Invoices.ApplyUpdate | StatusProcessServerKontra/StatusProcessorServer/InvoiceProcessorService.cs:49-68 | an update keeps the table's size and the ids of its rows |
| Invoices.ApplyAllRow | StatusProcessServerKontra/StatusProcessorServer/InvoiceProcessorService.cs:49-68 | after a series of updates, a row carries the last update addressed to its id, or is unchanged |
| Invoices.PassEffect | StatusProcessServerKontra/StatusProcessorServer/Program.cs:30-57 | after one pass, a row that was not pending is unchanged (`success` and `error` are final), and a pending row is settled once by its own draw |
| Invoices.RetriesEndInError | StatusProcessServerKontra/StatusProcessorServer/Program.cs:44-55 | an invoice that keeps failing stays pending with one more retry per pass until the limit, then is in `error` with the count at the limit |
| Invoices.InvoiceTable.GetPendingInvoices | StatusProcessServerKontra/StatusProcessorServer/InvoiceProcessorService.cs:20-47 | the reader loop returns the pending rows |
| Invoices.InvoiceTable.UpdateInvoice | StatusProcessServerKontra/StatusProcessorServer/InvoiceProcessorService.cs:49-68 | the update is applied to the table and recorded; ids stay unique |
| Invoices.InvoiceTable.ProcessPending | StatusProcessServerKontra/StatusProcessorServer/Program.cs:30-57 | one pass fetches the pending invoices, then settles each in fetch order; the table ends as all of those updates applied, and the ids stay unique |

## Left out

- Text comparisons that ignore case fold only ASCII letters. The tour filter's `ToLower` folds ASCII and the basic Cyrillic alphabet. Other Unicode case mappings are not modelled.
- `char.IsDigit` accepts only `0`-`9` here; other Unicode decimal digits are not modelled.
- The regular-expression classes `\s` and `\w`, `char.IsWhiteSpace` and `string.Trim` are ASCII here, where .NET uses Unicode categories: `$foreach(var элемент in xs)` is a valid header to the C# code, but the model does not read `элемент` as a word, and non-ASCII white space is not skipped or trimmed.
- Homework 4 searches for `$if`, `$foreach` and `$else` with the culture-sensitive `string.IndexOf(string)` (Homework_4/TemplateEngine/HttpTemplateRenderer.cs:61, 62 and 106); the model uses ordinal search, which agrees on these ASCII tags except where the culture's comparison ignores or combines characters next to them.
- TemplateValues.Properties: reflection's indexer properties are missing. These are `Item` on dictionaries and lists, `Chars` on strings, and `Comparer` and `Capacity` on dictionaries and lists. In the C# code, `GetProperty("Item")` finds the indexer and `GetValue` without an index throws, so `${Item}` inside a Homework 4 loop, or `${name.chars}` in Mini, makes the render throw; only Homework 4's `$if` condition catches it, reading false. The model reads these names as absent, giving null, and the placeholder renders as empty text.
- GetValue: for the same reason, a path through an indexer property gives null here, where the C# lookup throws.
- IfHeaderAt: its own contract states only the shape of a found header. `IfHeaderRecognised` states which headers are recognised, for conditions without `)`. Mini's expression also skips white space at the start of a condition; no lemma states that case.
- ForHeaderAt: its own contract states only the shape of a found header; `ForHeaderRecognised`, `ForHeaderWithoutVar` and `VarWithoutItem` state the recognised and refused forms with single spaces. Headers with extra white space, or with white space before the closing `)`, are parsed by the model but have no lemma of their own.
- PlaceholderAt: its own contract states only the shape of a found placeholder; `PlaceholderRecognised` states when one is recognised.
- IfKeepsOneBranch: stated for '$'-free branches and surrounding text with a word as condition; `IfChoosesBranch` and `FalseIfDropsFirstBranch` cover branches holding directives, and conditions other than words have no law of their own.
- Prices are integers. The tour's `double` price, the invoice's `decimal` amount and timestamps are not modelled.
- Reflection is replaced by explicit data: properties and their values become `Prop` records, types and attributes become `EndpointType`, `PropertyInfo` and `HttpAttribute`. `Activator`, `InvokeMethod` and response writing, including the 404 page's bytes, are not modelled.
- The template engine's file entry points (`RenderFromFile`, `RenderToFile`) and their file errors, console logging, and the regex timeout are not modelled.
- TemplateEngine.ProcessLogic: a `fuel` parameter bounds the recursion, and when it runs out the result is `None`. `None` thus stands both for a template on which the C# code would recurse without bound and for one it finishes but that needs more nesting and more passes than the given fuel; the laws hold for every fuel, as `fuel + 1` against `fuel`.
- Database execution is not modelled: Npgsql connections, parameter binding, `MapToObject`, and reading rows back into objects. The model produces the SQL text only.
- Directory enumeration is an input: which files `EnumerateFiles` matches with its name pattern, and in which order, is given, not computed. `File.ReadAllBytes` and its exceptions are not modelled; a found path stands for its bytes.
- PublicFiles.Combine: a second argument that starts with a separator is returned as it is, as `Path.Combine` does, but drive-qualified arguments are not modelled, and an empty second argument gives `Public/` where `Path.Combine` gives `Public`.
- In the processor, `Random.Next` becomes the `draws` input, and `Thread.Sleep`, the endless `while (true)` and the exception handler around each pass are not modelled; one pass is modelled, and repeated passes by `FailedPasses`.
- Invoices.InvoiceTable.GetPendingInvoices: the rows are returned in table order; PostgreSQL does not promise an order without `ORDER BY`.
- `MaxErrorRetries` from the settings manager is the `maxErrorRetries` parameter. It is fixed for a pass, whereas the source reads the settings again for each failed invoice; a configuration reload during a pass is not modelled.
- Invoices.InvoiceTable: `Id` is taken to be the primary key of `Invoices` (`Valid` requires distinct ids). The table's schema is not part of the code, which only selects by status and updates by `Id`; on a table with repeated ids one `UPDATE` would change every row with that id, which `ApplyUpdate` models but the class and `PassEffect` do not cover.
