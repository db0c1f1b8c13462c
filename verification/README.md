# SQL-RUSTico in Dafny

A Dafny model of the query core of SQL-RUSTico. SQL-RUSTico is a small SQL
engine that runs INSERT, UPDATE, DELETE and SELECT on CSV files. Each table
is one file, and its first line holds the column names.

The model covers the WHERE pipeline and the pure code around it:

- the command parsers (`parsear`, `parser_insert`, `parser_update`,
  `parser_delete`, `parser_select`);
- the WHERE tokenizer (`agrupar_expresiones`, `agrupar_condicionales`);
- the WHERE compiler (`adaptar_where`, `parsear_condicional`,
  `obtener_subexpresiones`, `agrupar_expresion`);
- the evaluator (`cumple_c_w`, `evaluar_expresion`, `comparar_valores`);
- the UPDATE row rewrite, the INSERT row assembly, and the SELECT filter,
  sort and projection.

Modules, leaves first:

| module | file | models |
|---|---|---|
| `Resultados` | resultados.dfy | the `Errores` enum, `Result` and `Option` |
| `Cadenas` | cadenas.dfy | the string operations the source uses: `split`, `join`, `trim`, `trim_*_matches`, `split_whitespace`, ASCII `to_uppercase`, `str` ordering |
| `Expresiones` | expresiones.dfy | the `Expresion` and `Condicional` enums |
| `Analizador` | analizador.dfy | `src/analizador/analizador_implementacion.rs` |
| `Ejecutor` | ejecutor.dfy | the helpers and the tokenizer of `src/ejecutor/ejecutor_implementacion.rs` |
| `Comandos` | comandos.dfy | `src/comandos/comandos_implementacion.rs` |
| `EjecutorUpdate` | ejecutor_update.dfy | `src/ejecutor/ejecutor_update.rs` |
| `EjecutorInsert` | ejecutor_insert.dfy | `src/ejecutor/ejecutor_insert.rs` |
| `EjecutorSelect` | ejecutor_select.dfy | `src/ejecutor/ejecutor_select.rs` |

Each `*_propiedades.dfy` file holds the lemmas about the module it is named after.

The source's loops appear twice. A pure recursive function states what the
loop computes. A method follows the loop step by step and is proved equal to
that function. Examples: `ReducirNot`, `ReducirBinario`, `Tokenizar`,
`JuntarValores`, `MismaLen`, `ValidarClausulaSet` and `FiltrarFilas`.

File contents are parameters:

- UPDATE and SELECT receive the table as its sequence of lines;
- INSERT receives the file's text;
- SELECT returns the lines it would print.

## Where the code and the documented behaviour differ

The model follows the code in each of these cases.

- **Comparisons are textual.** The documentation says `id > 5` holds on a row
  with `id = 10`. The code compares `"10"` with `"5"` as strings, so that
  comparison is false and `id < 5` is true (`ComparacionEsTextual`,
  `ComparacionEsTextualEjemplo`).
- **Repeated connectives fail.** The AND and OR passes advance the scan
  index past the node that follows each reduction. So `a AND b AND c` and
  `a OR b OR c` never reduce the second connective, and the clause is a
  syntax error (`ConectivoEncadenadoFalla`, `AndEncadenadoRechazado`).
- **`NOT NOT a` fails.** The first NOT swallows the second NOT's unfilled
  placeholder (`NotNotFalla`).
- **Unfilled slots can reach the evaluator.** The documentation says no
  unfilled slot ever does. `NOT AND` compiles to `Not(And(Unknown, Unknown))`,
  which accepts every row. See "## Findings".
- **An OR placeholder placed first is not always an error.** `OR AND a`
  compiles. Only an AND placeholder in first position is always rejected
  (`AgruparAndInicial`).
- **`==` is a token of its own.** `=` absorbs a following `=`, giving `==`.
  The triple merger does not treat `==` as an operator, so a condition
  written with `==` fails in the compiler.

## Model

| member | source | states |
|---|---|---|
| Analizador.ParsearCondicional | src/analizador/analizador_implementacion.rs:50-81 | A condition parses exactly when it has at least three words and the second is one of `>`, `>=`, `<`, `<=`, `=`. Otherwise the result is InvalidSyntax. The left operand is the first word and the right operand is the remaining words joined by single spaces. |
| AnalizadorPropiedades.CondicionalIdaYVuelta | src/analizador/analizador_implementacion.rs:59-72 | Round trip. A comparison written out as `m1 op m2` (the right operand possibly several words) and parsed again gives back the same comparison. |
| Analizador.AdaptarToken | src/analizador/analizador_implementacion.rs:27-43 | NOT, AND and OR in any letter case become their placeholders, and `(` and `)` become the parenthesis markers. Any other token becomes a comparison leaf that is exactly the parsed condition of its words, or InvalidSyntax. |
| Analizador.AdaptarWhere | src/analizador/analizador_implementacion.rs:24-47 | The clause adapts exactly when every token does. The output has one node per token, in order, and the first bad condition fails the clause with InvalidSyntax. |
| AnalizadorPropiedades.AdaptarWherePorElementos | src/analizador/analizador_implementacion.rs:24-47 | Converse of the above: tokens that each adapt to a given node give exactly that node sequence. |
| Analizador.ReducirNot | src/analizador/analizador_implementacion.rs:125-142 | The in-place NOT loop computes the NOT pass: each unfilled NOT takes the next element as its child, and a NOT in last position is an error. |
| Analizador.ReducirBinario | src/analizador/analizador_implementacion.rs:143-180 | The in-place AND and OR loops compute the binary pass. It advances one position after each reduction, and a placeholder first or last is an error. |
| Analizador.AgruparExpresion | src/analizador/analizador_implementacion.rs:124-191 | `agrupar_expresion` runs NOT, then AND, then OR, and succeeds only when exactly one node remains. |
| AnalizadorPropiedades.PasarNotConserva | src/analizador/analizador_implementacion.rs:125-142 | A successful NOT pass keeps the token reading of the sequence: tokens are only nested, never lost, added or reordered. |
| AnalizadorPropiedades.PasarBinarioConserva | src/analizador/analizador_implementacion.rs:143-180 | The same for the AND and OR passes. |
| AnalizadorPropiedades.AgruparConservaTokens | src/analizador/analizador_implementacion.rs:124-191 | The tree that grouping returns reads back as exactly the input sequence. |
| AnalizadorPropiedades.PasarNotSinMarca | src/analizador/analizador_implementacion.rs:125-142 | A sequence without a NOT placeholder passes the NOT pass unchanged. |
| AnalizadorPropiedades.PasarBinarioSinMarca | src/analizador/analizador_implementacion.rs:143-180 | A sequence without the pass's placeholder passes the AND or OR pass unchanged. |
| AnalizadorPropiedades.AgruparSinParentesis | src/analizador/analizador_implementacion.rs:124-191 | Grouping never introduces a parenthesis marker. |
| AnalizadorPropiedades.SubexpresionesEquilibrado | src/analizador/analizador_implementacion.rs:87-118 | If parenthesis resolution succeeds, the rest of the input is balanced with respect to the open groups on the stack. |
| AnalizadorPropiedades.SubexpresionesSinParentesis | src/analizador/analizador_implementacion.rs:87-119 | Markers are never appended to a group, so a resolved tree holds no parenthesis marker. |
| AnalizadorPropiedades.SubexpresionesConserva | src/analizador/analizador_implementacion.rs:87-119 | The resolved tree reads as the open groups on the stack, then the group being filled, then the rest of the input without its markers. |
| AnalizadorPropiedades.ObtenerSubexpresionesCorrecta | src/analizador/analizador_implementacion.rs:84-120 | On adapted input, success implies balanced parentheses. The result then has no marker and reads as the input with its markers removed. |
| AnalizadorPropiedades.ParentesisDesequilibrados | src/analizador/analizador_implementacion.rs:93-118 | A `)` that closes nothing, or a `(` never closed, makes the whole clause InvalidSyntax. |
| AnalizadorPropiedades.SubexpresionesSinParentesisEsAgrupar | src/analizador/analizador_implementacion.rs:84-119 | Without parentheses, resolution is a single call to grouping on the whole sequence. |
| AnalizadorPropiedades.ObtenerSinParentesis | src/analizador/analizador_implementacion.rs:84-119 | The same statement, for the entry point. |
| AnalizadorPropiedades.ParsearExpresionCorrecta | src/analizador/analizador_implementacion.rs:8-21 | A clause that compiles has balanced adapted tokens. Its tree has no parenthesis marker and reads as those tokens without markers. |
| AnalizadorPropiedades.AgruparNotFinal | src/analizador/analizador_implementacion.rs:129-138 | A NOT placeholder in last position, not itself swallowed by a NOT before it, is InvalidSyntax. |
| AnalizadorPropiedades.AgruparAndInicial | src/analizador/analizador_implementacion.rs:145-157 | An AND placeholder in first position is always InvalidSyntax. |
| AnalizadorPropiedades.AgruparVacio | src/analizador/analizador_implementacion.rs:181-190 | An empty group, for example `()`, leaves no node and is InvalidSyntax. |
| AnalizadorPropiedades.AgruparBinarioSimple | src/analizador/analizador_implementacion.rs:143-180 | `l AND r` and `l OR r` over finished operands group into the connective over the two operands. |
| AnalizadorPropiedades.AgruparPrecedencia | src/analizador/analizador_implementacion.rs:122-180 | `NOT x AND y OR z` groups as `(NOT x AND y) OR z`: NOT binds tighter than AND, and AND tighter than OR. |
| AnalizadorPropiedades.AndAntesQueOr | src/analizador/analizador_implementacion.rs:143-180 | `x AND y OR z` compiles to `Or(And(x, y), z)`. |
| AnalizadorPropiedades.ParentesisAgrupan | src/analizador/analizador_implementacion.rs:84-120 | Parentheses override precedence: `x AND (y OR z)` compiles to `And(x, Or(y, z))`, unlike `x AND y OR z`. |
| AnalizadorPropiedades.PrecedenciaAgrupada | src/analizador/analizador_implementacion.rs:84-191 | Precedence holds through parenthesis resolution too, not only inside grouping. |
| AnalizadorPropiedades.PrecedenciaClausula | src/analizador/analizador_implementacion.rs:8-21 | From the text tokens: `NOT a AND b OR c` (keywords in any case) compiles to `Or(And(Not(a), b), c)` over the three parsed conditions. |
| AnalizadorPropiedades.PrecedenciaClausulaEvalua | src/analizador/analizador_implementacion.rs:208-228 | On every row, that clause is true exactly when `(not a and b) or c` holds of the three conditions' verdicts. |
| AnalizadorPropiedades.ConectivoEncadenadoFalla | src/analizador/analizador_implementacion.rs:144-180 | `x AND y AND z` and `x OR y OR z` are InvalidSyntax, because the scan skips the second placeholder. |
| AnalizadorPropiedades.AndEncadenadoRechazado | src/analizador/analizador_implementacion.rs:144-161 | From the text tokens: `a AND b AND c` is rejected for any three conditions. |
| AnalizadorPropiedades.NotNotFalla | src/analizador/analizador_implementacion.rs:126-142 | `NOT NOT x` is InvalidSyntax. |
| AnalizadorPropiedades.PlaceholderSinLlenar | src/analizador/analizador_implementacion.rs:126-142 | The source compiles `NOT AND` to a tree that accepts every row, and `NOT NOT` to one that rejects every row. The guarded compiler rejects both. |
| Analizador.ParsearExpresion | src/analizador/analizador_implementacion.rs:8-21 | An empty clause compiles to `Unknown`. Every failure is InvalidSyntax. |
| Analizador.CompilarWhere | src/analizador/analizador_implementacion.rs:8-21 | Corrected compiler. It agrees with the source whenever the source's tree is finished, and every non-empty clause it accepts compiles to a finished tree (no unfilled slot, no marker). |
| Analizador.ObtenerValor | src/analizador/analizador_implementacion.rs:309-320 | A column's value exists exactly when the column is known and the row has a field at its index, and the value is that field. |
| Analizador.CompararValores | src/analizador/analizador_implementacion.rs:258-306 | True exactly when at least one side names a column, both sides have a value, and the comparator holds. A value is a column's field, a digit-only literal as written, or a quoted literal without its quotes. Everything else is false. |
| AnalizadorPropiedades.ComparacionEsTextual | src/analizador/analizador_implementacion.rs:239-247 | On every row, a column compared with a digit-only literal is compared as text: each of the five operators holds exactly when string order (or equality) says so. |
| AnalizadorPropiedades.ComparacionEsTextualEjemplo | src/analizador/analizador_implementacion.rs:239-247 | Example: on row `10,Bob`, `id > 5` is false and `id < 5` is true, because "10" sorts before "5". |
| AnalizadorPropiedades.ComparacionSinComillas | src/analizador/analizador_implementacion.rs:297-301 | `nombre = 'Bob'` holds on row `10,Bob`: a quoted literal loses its quotes before comparison. |
| AnalizadorPropiedades.ComparacionSinColumna | src/analizador/analizador_implementacion.rs:268-305 | On every row, two operands that are not columns give false, and so does an operand that is neither a column nor a literal (an unknown column), for every operator. |
| AnalizadorPropiedades.ComparacionSinColumnaEjemplo | src/analizador/analizador_implementacion.rs:268-305 | Example: `edad = 5` with no column `edad`, and `5 = 5`, are both false, not an error. |
| Analizador.CumpleCW | src/analizador/analizador_implementacion.rs:194-205 | `Unknown` (the empty clause) accepts every row. Any other tree is evaluated on the line's comma-separated, trimmed fields. |
| Cadenas.LexMenorTotal | src/ejecutor/ejecutor_select.rs:116-119 | The `str` order used by the comparisons and the sort is total: two different texts are always ordered one way or the other. |
| Cadenas.LexMenorTransitivo | src/ejecutor/ejecutor_select.rs:116-119 | That order is transitive. |
| Ejecutor.CrearRuta | src/ejecutor/ejecutor_implementacion.rs:40-42 | The path is the directory, `/`, the table name and `.csv`, each at its place. |
| EjecutorPropiedades.CrearRutaInyectiva | src/ejecutor/ejecutor_implementacion.rs:40-42 | Two tables in one directory never share a path. |
| Ejecutor.ObtenerIndicesColumnas | src/ejecutor/ejecutor_implementacion.rs:90-96 | The keys are exactly the header names. Each maps to a position holding that name, and no later position holds it, so a repeated name keeps its last position. |
| EjecutorPropiedades.IndicesDeDistintos | src/ejecutor/ejecutor_implementacion.rs:90-96 | With distinct names, every name maps to its own position. |
| EjecutorPropiedades.RecorrerUnion | src/ejecutor/ejecutor_implementacion.rs:103-124 | The regrouping loop over `a + b` is the loop over `a` continued over `b`. |
| EjecutorPropiedades.JuntarWordsSinComillas | src/ejecutor/ejecutor_implementacion.rs:119-123 | Words with no quote at either end pass through `juntar_words` unchanged. |
| EjecutorPropiedades.JuntarWordsCitada | src/ejecutor/ejecutor_implementacion.rs:104-110 | A word quoted at both ends comes out in place, without its quotes. |
| EjecutorPropiedades.JuntarWordsGrupo | src/ejecutor/ejecutor_implementacion.rs:111-120 | An opening word, plain words and a closing word become one element, quotes kept, in place of the group. |
| EjecutorPropiedades.GrupoAbiertoSePierde | src/ejecutor/ejecutor_implementacion.rs:111-125 | A group that is never closed is lost, together with every word after it. |
| EjecutorPropiedades.LimpiarValor | src/ejecutor/ejecutor_implementacion.rs:73-87 | A value token such as `(111,`, `6,`, `'Laptop',` or `3)` cleans to the single bare value. |
| EjecutorPropiedades.LimpiarComillaTrasParentesis | src/ejecutor/ejecutor_implementacion.rs:74-81 | `('w')` cleans to `w'`: the leading trims run before the trailing ones, so one quote survives. |
| Ejecutor.Tokenizar | src/ejecutor/ejecutor_implementacion.rs:132-180 | The scan loop computes the functional scan, including the two-character step when an operator absorbs `=`. |
| EjecutorPropiedades.TokensBienFormados | src/ejecutor/ejecutor_implementacion.rs:140-180 | Every emitted token is non-empty. Unless it holds a quote, it is a parenthesis, an operator symbol or a run of ordinary characters. |
| EjecutorPropiedades.TokensConservan | src/ejecutor/ejecutor_implementacion.rs:140-180 | The tokens laid end to end are the clause with exactly the whitespace outside quotes removed. Nothing else is dropped, added or reordered. |
| EjecutorPropiedades.ConservadosEntreComillas | src/ejecutor/ejecutor_implementacion.rs:143-147 | Between quotes every character is kept, spaces included. |
| EjecutorPropiedades.ConservadosSinEspacios | src/ejecutor/ejecutor_implementacion.rs:148-152 | Only whitespace is ever dropped: text without whitespace is kept whole. |
| EjecutorPropiedades.CondicionCortada | src/ejecutor/ejecutor_implementacion.rs:153-180 | `a op b`, with or without spaces around the operator, scans to the three tokens `a`, `op`, `b`. So `id>=5` gives `id`, `>=`, `5`. |
| Ejecutor.AgruparCondicionales | src/ejecutor/ejecutor_implementacion.rs:185-207 | The output is never longer than the input and is non-empty for non-empty input. |
| EjecutorPropiedades.AgruparConservaTexto | src/ejecutor/ejecutor_implementacion.rs:185-207 | Merging triples never changes the clause's space-joined text. |
| EjecutorPropiedades.AgruparSinOperadores | src/ejecutor/ejecutor_implementacion.rs:200-203 | Tokens with no operator symbol among them pass through unchanged. |
| EjecutorPropiedades.CondicionCitada | src/ejecutor/ejecutor_implementacion.rs:143-180 | `a op 'c'`, with or without spaces around the operator, scans to `a`, `op` and the quoted span `'c'` kept whole, spaces and operator characters inside it included. |
| EjecutorPropiedades.AdaptarWhereCitada | src/ejecutor/ejecutor_implementacion.rs:128-183 | A condition against a quoted literal becomes the single token `a op 'c'`, the quoted span unchanged. |
| EjecutorPropiedades.AdaptarWhereCondicion | src/ejecutor/ejecutor_implementacion.rs:128-183 | One condition's text becomes the single token `a op b`. |
| Comandos.Parsear | src/comandos/comandos_implementacion.rs:33-51 | Blank input is InvalidSyntax, and every parse failure is InvalidSyntax. |
| Comandos.Despachar | src/comandos/comandos_implementacion.rs:41-50 | Only INSERT, UPDATE, DELETE and SELECT, in any letter case, can parse, and the first keyword decides the kind of command that comes out. |
| ComandosPropiedades.ParsearEnBlanco | src/comandos/comandos_implementacion.rs:34-39 | Whitespace-only input has no words and is InvalidSyntax. |
| ComandosPropiedades.ParsearDePalabras | src/comandos/comandos_implementacion.rs:33-51 | Words joined by spaces split back into the same words, so parsing that text is dispatching on those words. |
| ComandosPropiedades.ObtenerIndiceCorrecto | src/comandos/comandos_implementacion.rs:273-275 | The index found is the first token that uppercases to the keyword. No index is found exactly when no token does. |
| Comandos.ParserInsert | src/comandos/comandos_implementacion.rs:54-96 | Parses exactly when INTO is token 1 and VALUES comes after position 3. The table is token 2 and the values are every token after VALUES. |
| ComandosPropiedades.InsertValido | src/comandos/comandos_implementacion.rs:54-87 | `INSERT INTO t cols VALUES vs` parses into table `t`, the column list from `cols`, and the value tokens `vs`. |
| ComandosPropiedades.ColumnasDeLista | src/comandos/comandos_implementacion.rs:76-82 | A column list written `(a, b, c)` becomes exactly the names `a`, `b`, `c`. |
| ComandosPropiedades.InsertSinColumnas | src/comandos/comandos_implementacion.rs:322-328 | `INSERT INTO t VALUES ...`, with no column list, is InvalidSyntax. |
| Comandos.ParserUpdate | src/comandos/comandos_implementacion.rs:99-143 | A missing SET is InvalidSyntax. With SET and no WHERE it succeeds. With both, it succeeds exactly when SET comes before WHERE and some token follows WHERE. On success the command is an UPDATE of token 1. |
| ComandosPropiedades.UpdateConWhere | src/comandos/comandos_implementacion.rs:120-142 | With WHERE, the SET clause is the tokens between SET and WHERE, and the WHERE clause is the tokens after WHERE, each space-joined. |
| ComandosPropiedades.UpdateSinWhere | src/comandos/comandos_implementacion.rs:115-119 | Without WHERE, the SET clause is everything after SET and the WHERE clause is empty. |
| ComandosPropiedades.UpdateWhereVacio | src/comandos/comandos_implementacion.rs:120-131 | A WHERE with nothing after it is InvalidSyntax. |
| ComandosPropiedades.ParsearUpdate | src/comandos/comandos_implementacion.rs:331-350 | From the query text, `UPDATE t SET s WHERE w` parses with the SET and WHERE clauses space-joined. |
| Comandos.ParserDelete | src/comandos/comandos_implementacion.rs:146-185 | Parses exactly when there are at least three tokens and token 1 is FROM in any case. The table is token 2 with trailing `;` removed. |
| ComandosPropiedades.DeleteConWhere | src/comandos/comandos_implementacion.rs:155-184 | `DELETE FROM t[;] WHERE w` gives table `t` and the WHERE tokens space-joined. |
| Comandos.ParserSelect | src/comandos/comandos_implementacion.rs:188-270 | A missing FROM, or no token after FROM, is InvalidSyntax. The table is the token after FROM, and the fields are the cleaned tokens between SELECT and FROM. |
| Comandos.ClausulasSelect | src/comandos/comandos_implementacion.rs:221-262 | The clauses fail exactly when ORDER has no token after it, and the failure is InvalidSyntax. |
| ComandosPropiedades.CamposDeNombres | src/comandos/comandos_implementacion.rs:203-207 | Field tokens `id,`, `nombre,`, `email` give the fields `id`, `nombre`, `email`. |
| ComandosPropiedades.SelectConWhere | src/comandos/comandos_implementacion.rs:217-246 | `SELECT cs FROM t WHERE w` with no ORDER gives the fields of `cs`, table `t`, the WHERE tokens space-joined and an empty order clause. |
| ComandosPropiedades.SelectConOrden | src/comandos/comandos_implementacion.rs:248-253 | `SELECT cs FROM t ... ORDER BY o` has an empty WHERE, and its order clause is `o`, taken as is. |
| ComandosPropiedades.SelectConWhereYOrden | src/comandos/comandos_implementacion.rs:221-233 | With WHERE and ORDER BY, the WHERE clause is the space-joined tokens between them, and the order clause is the tokens after `ORDER BY` without `;` tokens. |
| ComandosPropiedades.SelectOrdenIncompleto | src/comandos/comandos_implementacion.rs:234-261 | An ORDER with no token after it is InvalidSyntax. |
| ComandosPropiedades.EliminarConserva | src/comandos/comandos_implementacion.rs:278-286 | No `;` token is left, and every other token keeps its number of occurrences. |
| ComandosPropiedades.EliminarUnion | src/comandos/comandos_implementacion.rs:278-286 | The removal works token by token, so order is kept: removing from `a + b` is removing from `a`, then from `b`. |
| ComandosPropiedades.EliminarSinPuntoYComa | src/comandos/comandos_implementacion.rs:278-286 | A clause without `;` tokens is unchanged. |
| EjecutorUpdate.ObtenerClausula | src/ejecutor/ejecutor_update.rs:187-201 | Succeeds exactly when every item splits on `=` into two parts. The result has one assignment per item, in order, with both parts. The failure is InvalidSyntax. |
| EjecutorUpdate.ClausulaSetLimpia | src/ejecutor/ejecutor_update.rs:179-185 | The comma-separated items parse as above, and any failure is reported as Error. |
| EjecutorUpdatePropiedades.ClausulaReconstruye | src/ejecutor/ejecutor_update.rs:187-201 | Each parsed assignment rebuilds its item as `columna=valor`, and neither side holds `=`. |
| EjecutorUpdatePropiedades.TextoDeClausula | src/ejecutor/ejecutor_update.rs:179-201 | A parsed SET clause, written back, is the original text. |
| EjecutorUpdatePropiedades.ClausulaDeTexto | src/ejecutor/ejecutor_update.rs:179-201 | Converse: assignments free of `,` and `=` written as a clause parse back to themselves. |
| EjecutorUpdate.SinEspaciosRecorta | src/ejecutor/ejecutor_update.rs:212-214 | The column name is stripped of the same spaces as `trim_end_matches(" ").trim_start_matches(" ")`. |
| EjecutorUpdate.ValidarClausulaSet | src/ejecutor/ejecutor_update.rs:203-223 | True exactly when there are no more assignments than columns, each space-trimmed column is a header column, and no assignment repeats an earlier one's untrimmed column text. |
| EjecutorUpdatePropiedades.NuevoValorCitado | src/ejecutor/ejecutor_update.rs:158-163 | The right side ` 'w'` of `col = 'w'` yields the new value `w`. |
| EjecutorUpdatePropiedades.NuevoValorDesnudo | src/ejecutor/ejecutor_update.rs:158-163 | The right side ` w` of `col = w` yields `w`. |
| EjecutorUpdatePropiedades.NuevoValorCaracteres | src/ejecutor/ejecutor_update.rs:158-163 | The new value is made only of characters of the written value. |
| EjecutorUpdate.Aplicar | src/ejecutor/ejecutor_update.rs:156-175 | Succeeds exactly when every assignment names a known column inside the row, and keeps the number of fields. The failure is Error. |
| EjecutorUpdatePropiedades.AplicarContenido | src/ejecutor/ejecutor_update.rs:156-176 | A field no assignment names keeps its value. A named field takes the value of the last assignment that names it. |
| EjecutorUpdatePropiedades.AplicarSinComa | src/ejecutor/ejecutor_update.rs:156-176 | If no field and no new value holds a comma, no field of the result does. |
| EjecutorUpdate.ActualizarLinea | src/ejecutor/ejecutor_update.rs:150-177 | A row is rewritten exactly when every trimmed SET column is in the index map and inside the row. Otherwise the result is Error. |
| EjecutorUpdatePropiedades.ActualizarLineaCampos | src/ejecutor/ejecutor_update.rs:150-177 | The rewritten row splits back into exactly the updated fields, so its field count is unchanged. |
| EjecutorUpdate.Fila | src/ejecutor/ejecutor_update.rs:118-127 | A row the WHERE tree rejects is copied as is. A row it accepts is rewritten, and only such a row can fail. |
| EjecutorUpdate.Reunir | src/ejecutor/ejecutor_update.rs:101-139 | The rows' results are kept in order. The whole rewrite succeeds exactly when every row does, and otherwise reports one row's error. |
| EjecutorUpdatePropiedades.ReescribirCorrecto | src/ejecutor/ejecutor_update.rs:101-139 | The rewrite succeeds exactly when every data row does, and row `i` of the output is row `i`'s result. |
| EjecutorUpdate.ActualizarArchivo | src/ejecutor/ejecutor_update.rs:100-116 | The output has as many lines as the file, and its first line is the column list re-joined with commas. |
| EjecutorUpdate.ProcesarUpdate | src/ejecutor/ejecutor_update.rs:42-74 | An empty file is Error, and a SET clause the header does not validate is InvalidColumn. |
| EjecutorUpdatePropiedades.ProcesarFilas | src/ejecutor/ejecutor_update.rs:100-139 | On success the header line comes out unchanged, and every data row is its kept or rewritten self, in order. |
| EjecutorUpdatePropiedades.ProcesarSinCoincidencias | src/ejecutor/ejecutor_update.rs:118-138 | When the WHERE tree accepts no row, the file is left exactly as it was. |
| EjecutorUpdatePropiedades.ProcesarExitoso | src/ejecutor/ejecutor_update.rs:42-74 | A valid SET clause whose names are plain-space-trimmed succeeds on a file whose rows all have the header's width. |
| EjecutorUpdate.EjecutarUpdate | src/ejecutor/ejecutor_update.rs:13-40 | A command that is not an UPDATE, and an unparsable SET clause, are both Error. |
| EjecutorUpdatePropiedades.UpdateSinWhere | src/ejecutor/ejecutor_update.rs:25-39 | An UPDATE without WHERE (or with only `;`) rewrites every data row. |
| EjecutorInsert.Trozos | src/ejecutor/ejecutor_insert.rs:38-53 | Consecutive runs of exactly `tam` values. Laid end to end they are a prefix of the input, and fewer than `tam` values are left over. |
| EjecutorInsert.JuntarValores | src/ejecutor/ejecutor_insert.rs:38-53 | The counter loop groups the first entry of each cleaned token into full runs and drops an incomplete last run. |
| EjecutorInsert.MismaLen | src/ejecutor/ejecutor_insert.rs:149-160 | True exactly when every list has the length of the first, which includes the empty list of lists. |
| EjecutorInsert.Posicion | src/ejecutor/ejecutor_insert.rs:135 | The first header position holding the name, or none exactly when the name is absent. |
| EjecutorInsert.Llenar | src/ejecutor/ejecutor_insert.rs:133-141 | Succeeds exactly when every named column is in the header, and keeps the row's width. A missing name is InvalidSyntax. |
| EjecutorInsert.LineaAEscribir | src/ejecutor/ejecutor_insert.rs:131-143 | One row has exactly the header's width and exists exactly when every named column is in the header. |
| EjecutorInsertPropiedades.LineaContenido | src/ejecutor/ejecutor_insert.rs:131-141 | A header column nobody names is empty. A named one holds the value of the last name landing on it, or the empty text when the value row is short. |
| EjecutorInsertPropiedades.LineaDistintas | src/ejecutor/ejecutor_insert.rs:133-141 | With distinct names and one value per name, each value sits under its own column. |
| EjecutorInsert.ObtenerLineaAEscribir | src/ejecutor/ejecutor_insert.rs:123-147 | There is one laid-out row per value row, and the layout fails, with InvalidSyntax, only on a name missing from the header. |
| EjecutorInsert.Anexar | src/ejecutor/ejecutor_insert.rs:81-117 | The append only extends the file: the old text is a prefix of the result. |
| EjecutorInsertPropiedades.AnexarLineas | src/ejecutor/ejecutor_insert.rs:81-117 | After the append, the file's lines are its old lines followed by one comma-joined line per new row, and the text ends with a line break. |
| EjecutorInsert.ProcesarInsert | src/ejecutor/ejecutor_insert.rs:55-120 | A missing first line, a header narrower than the names, value rows of different lengths, or a name count that differs from the row length is an error, and every failure is reported as Error. It succeeds exactly when none of these holds and every name is a header column. On success the text gains the assembled rows. |
| EjecutorInsert.FilasDeValores | src/ejecutor/ejecutor_insert.rs:19-24 | All value rows have one length, and with at least `tam` values the first row has exactly `tam` entries. |
| EjecutorInsert.NombresFinales | src/ejecutor/ejecutor_insert.rs:25-33 | One cleaned name per named column, in order. |
| EjecutorInsert.EjecutarInsert | src/ejecutor/ejecutor_insert.rs:7-36 | A command that is not an INSERT is Error, and so is every other failure. |
| EjecutorInsertPropiedades.EjecutarInsertResultado | src/ejecutor/ejecutor_insert.rs:55-79 | For a parsed INSERT, the row-length guards always pass. So it succeeds exactly when the header is wide enough and names every column, and the result is the file with the laid-out rows appended. |
| EjecutorSelect.FiltrarFilas | src/ejecutor/ejecutor_select.rs:60-81 | The reading loop skips the header and keeps exactly the filtered data rows. |
| EjecutorSelectPropiedades.FiltrarMiembros | src/ejecutor/ejecutor_select.rs:70-80 | A line is kept exactly when it is a data row the WHERE tree accepts. |
| EjecutorSelectPropiedades.FiltrarNinguna | src/ejecutor/ejecutor_select.rs:74-80 | When the tree accepts no row, nothing is kept. |
| Analizador.Campos | src/ejecutor/ejecutor_select.rs:96-99 | One trimmed field per comma-separated piece of the row. |
| EjecutorSelect.Ordenar | src/ejecutor/ejecutor_select.rs:114-120 | The sorted rows are a permutation of the input. |
| EjecutorSelectPropiedades.OrdenarCorrecto | src/ejecutor/ejecutor_select.rs:114-120 | The sorted rows are a permutation, non-decreasing on the key for ASC and non-increasing for DESC. Rows with equal keys keep their input order (stable, as `sort_by` is). |
| EjecutorSelectPropiedades.OrdenarEstable | src/ejecutor/ejecutor_select.rs:114-120 | For every key, the rows with that key come out in their input order. |
| EjecutorSelectPropiedades.AntesAsimetrico | src/ejecutor/ejecutor_select.rs:116-119 | The comparator is a strict order: two rows never each come before the other, and rows that come before one another have different keys. |
| EjecutorSelectPropiedades.PartidasRecortadas | src/ejecutor/ejecutor_select.rs:97-116 | The comparator's extra `trim` changes nothing, since the fields are already trimmed. |
| EjecutorSelect.OrdenarResultado | src/ejecutor/ejecutor_select.rs:90-132 | Without an order clause the rows come back split, in input order. An unknown column is InvalidSyntax. With a known column, success is exactly a mode of ASC or DESC (the default when no mode is given), and any other mode is Error. |
| EjecutorSelectPropiedades.OrdenarResultadoCorrecto | src/ejecutor/ejecutor_select.rs:90-132 | With a known column and a valid mode, the result is sorted as stated for `OrdenarCorrecto`, in the right direction. |
| EjecutorSelect.Proyectar | src/ejecutor/ejecutor_select.rs:147-156 | A projected row has at most one value per requested field, and every value comes from the row. |
| EjecutorSelectPropiedades.ProyectarConocidos | src/ejecutor/ejecutor_select.rs:148-155 | When every requested field is a column inside the row, the projection lists those fields' values in request order. |
| EjecutorSelectPropiedades.ProyectarDesconocidos | src/ejecutor/ejecutor_select.rs:150-154 | Fields that are unknown, or outside the row, are skipped. |
| EjecutorSelectPropiedades.ProyectarUnion | src/ejecutor/ejecutor_select.rs:149-155 | Projection works field by field, in order. |
| EjecutorSelect.Mostrar | src/ejecutor/ejecutor_select.rs:134-159 | One header line, then one line per row. `*` prints the column list and whole rows. A field list prints itself and each row's projection. |
| EjecutorSelect.ProcesarSelect | src/ejecutor/ejecutor_select.rs:38-88 | An empty file is Error, and a failed ordering is InvalidSyntax. On success there is one output line per kept row, plus the header. |
| EjecutorSelect.EjecutarSelect | src/ejecutor/ejecutor_select.rs:12-36 | A command that is not a SELECT, and a WHERE clause that does not compile, are both InvalidSyntax. Otherwise the file is processed with the compiled tree. |
| EjecutorSelectPropiedades.SelectTodo | src/ejecutor/ejecutor_select.rs:140-144 | `SELECT *` with no WHERE and no ORDER BY prints the header line and every data row, each re-joined from its trimmed fields. |
| EjecutorSelectPropiedades.SelectVacio | src/ejecutor/ejecutor_select.rs:61-87 | When the WHERE tree accepts no row, only the header line is printed. |

## Left out

- File I/O is not modelled:
  - opening, creating, appending, renaming and removing files;
  - the read and write errors these raise;
  - `obtener_primera_linea`, whose role is played by the first element of the given lines (or `EjecutorInsert.PrimeraLinea` of the given text).

  Lines are cut at `\n` only. A `\r` before it is kept, whereas `lines()` drops it.
- `src/ejecutor/ejecutor_delete.rs` is not part of this model. It is an I/O loop that keeps the header and drops the rows `cumple_c_w` accepts, the same row rule `EjecutorUpdate.Fila` and `EjecutorSelect.Filtrar` use.
- `main.rs`, the dispatcher `ejecutar_comando`, `imprimir_error` and `println!` are not modelled. SELECT returns its printed lines instead.
- `to_uppercase`, `split_whitespace`, `trim` and `is_whitespace` are ASCII-only. Letters outside `a`-`z` are left unchanged, and whitespace is space, tab, line feed, carriage return, form feed and vertical tab.
- Rust panics are preconditions, not results:
  - `Comandos.Parsear`, `Comandos.Despachar` and `Comandos.ParserSelect` require that a WHERE does not follow an ORDER that has a token after it. That case slices backwards at `src/comandos/comandos_implementacion.rs:224`.
  - `Comandos.ParserUpdate` requires its first token to be UPDATE, as dispatch guarantees. Otherwise reading token 1 could fail.
  - `EjecutorInsert.EjecutarInsert` requires three things:
    - at least one named column (`% tam` at `src/ejecutor/ejecutor_insert.rs:46`);
    - a non-empty cleaned list per value token (`sub_lista[0]` at line 43);
    - a first value row when the header is wide enough (`valores[0]` at line 68).
  - `EjecutorSelect.OrdenarResultado`, `ProcesarSelect` and `EjecutorSelect.EjecutarSelect` require every row to have the key column once two or more rows are sorted (`src/ejecutor/ejecutor_select.rs:116-119`).
- `cumple_c_w` returns a `Result` that is never an error. `Analizador.CumpleCW` returns the boolean, and the executors' `InvalidSyntax` branch on it is unreachable.
- `EjecutorUpdate.EjecutarUpdate` and `EjecutorSelect.EjecutarSelect` compile the WHERE clause with the corrected `Analizador.CompilarWhere`, so they reject `NOT AND` and `NOT NOT`, which the source accepts (see "## Findings").
- Ejecutor.JuntarWords: its contract only bounds the output length. Its behaviour is stated by the lemmas for plain words, fully quoted words, one closed group and one open group. A group that contains a fully quoted word, or a second opening word, is not characterised.
- Ejecutor.LimpiarLista: stated only for one value with its usual delimiters (`LimpiarValor`, `LimpiarComillaTrasParentesis`). Tokens holding several commas are not characterised.
- Ejecutor.Escanear: the exact token list is stated for one condition against a word (`CondicionCortada`) or a quoted literal (`CondicionCitada`). In general only conservation of the text and the shape of each token are proved.
- Analizador.Agrupar: which sequences group successfully is not characterised in general. The lemmas give conservation of the token reading and the precedence, repetition, NOT NOT and edge cases.
- Comandos.ParserUpdate and Comandos.ParserSelect: the UPDATE contract gives the table and exactly when parsing succeeds. The SELECT contract gives the table, the fields and the missing-FROM and missing-table errors; an ORDER with no key after it is stated by `SelectOrdenIncompleto`. The clause contents are stated by lemmas for the usual query shapes (`UpdateConWhere`, `SelectConWhere`, `SelectConOrden` and the others), not for every token list.
- Comandos.ColumnasInto: its contract gives the number of names. The names are stated for a well-formed list `(a, b, c)` (`ColumnasDeLista`).

## Findings

| source | as written | input that shows it | evidently intended | confidence | as-written member | corrected member |
|---|---|---|---|---|---|---|
| src/analizador/analizador_implementacion.rs:126-142 | The NOT pass gives an unfilled NOT placeholder the next element as its child, even when that element is itself an unfilled AND, OR or NOT placeholder. No later step checks for unfilled slots, and the evaluator reads an unfilled slot as false. | The WHERE clause `NOT AND` compiles to `Not(And(Unknown, Unknown))`, which is true on every row, so `DELETE FROM t WHERE NOT AND` would delete every row. `NOT NOT` compiles to a tree that is false on every row. | A clause whose tree still holds an unfilled placeholder is a syntax error, like every other missing operand. | high; not executed | AnalizadorPropiedades.PlaceholderSinLlenar | Analizador.CompilarWhere |

The model writes the source's unfilled `Not(Unknown)`, `And(Unknown, Unknown)` and `Or(Unknown, Unknown)` as the placeholders `MarcaNot`, `MarcaAnd` and `MarcaOr`. So `Not(MarcaAnd)` in `PlaceholderSinLlenar` is the source's `Not(And(Unknown, Unknown))`.

`Analizador.ParsearExpresion` is the compiler as written. `Analizador.CompilarWhere` adds the missing check. It agrees with the source on every clause whose tree is finished, and every non-empty clause it accepts compiles to a finished tree. The UPDATE and SELECT executors use it.
