# GrafoDisperso in Dafny

This project models `GrafoDisperso`, the native C++ core of a sparse directed-graph
explorer, and proves properties of that model. The class does the following:

- It reads an edge list, one `origen destino` pair per text line.
- It remaps arbitrary integer ids to dense indices `0, 1, 2, …` in order of first appearance.
- It stores the graph in CSR (Compressed Sparse Row) form.
  - `row_ptr[i] .. row_ptr[i+1]` delimits row `i` of `col_indices`.
  - That row holds the destinations of the edges leaving index `i`, in file order.
- It answers queries: out-degree, neighbours, a depth-bounded breadth-first search, the
  node of largest out-degree, the edges of an induced subgraph, and a memory estimate.

The modules follow the program's structure:

| module | file | contents |
|---|---|---|
| `Opcion` | `opcion.dfy` | `Option`, for the file that may not open and for parses that may fail |
| `Lectura` | `lectura.dfy` | the line parser (`linea.empty()`, `#` comments, two `>> int` extractions with 32-bit range), the accepted edges of a file `Aristas`, and properties of both |
| `Registro` | `registro.dfy` | the effect of `obtenerIndice` on the two maps and the next free index, as a pure step `Paso` and a fold `Registrar`; order-of-appearance and inverse-map properties |
| `Csr` | `csr.dfy` | CSR well-formedness, rows, the layout a load builds (`Construido`), and reachability within `k` edges (`Alcanza`) |
| `Recorrido` | `recorrido.dfy` | the BFS loop over the CSR arrays, proved against `EsRecorrido` |
| `Subgrafo` | `subgrafo.dfy` | the edges `obtenerAristasSubgrafo` returns, at the level of original ids |
| `Grafo` | `grafo.dfy` | the class `GrafoDisperso`, its class invariant `Valid()`, and the loops of its methods |

The class keeps the C++ fields as fields:
- `row_ptr` and `col_indices` are `seq<int>`;
- the two `std::map`s are `map<int, int>`;
- the counters are `int`.

The methods that may insert into the maps (`obtenerIndice` and every query that calls it)
`modify` exactly those three fields. The `const` methods (`obtenerNumNodos`,
`obtenerNumAristas`, `obtenerMemoriaEstimada`, `imprimirEstadisticas`) are functions that
only `read` the object.

A ghost field `aristas` records the edges, as original ids, that the last load accepted. The
class invariant `Valid()` (`Grafo.Coherente`) says four things:
- the maps remain mutual inverses over `[0, siguienteIndice)`;
- `numNodos <= siguienteIndice`;
- every loaded edge is registered;
- the CSR arrays are exactly the layout of those edges in dense indices (or empty before any load).

The dataset is an `Option<seq<string>>`: `None` is a file that cannot be opened, and
`Some(lineas)` gives its lines.

Some behaviour of the C++ code is worth stating outright, because the model keeps it:

- A malformed line is skipped silently; no error names it.
- An unknown id gives `-1` (`obtenerGrado`) or an empty result (`bfs`, `getVecinos`); no error is raised.
- A query for an unknown id still registers it through `obtenerIndice`, at the next free index.
- A reload replaces the edges, but keeps and extends the id maps. So every id registered before (by a load or by a query) counts among the nodes of the new layout, with no edges unless the new file gives it some.
- A file that cannot be opened leaves the object unchanged.
- `bfs` with `profundidadMaxima <= 0` returns only its start.
- `bfs` dequeues level by level, and within a level in the order the nodes were pushed: each expanded node pushes its first-seen neighbours in `col_indices` order. `Recorrido.Orden` defines that order independently of the loop, and the loop is proved to produce it.

## Model

| member | source | states |
|---|---|---|
| Lectura.SaltarBlancos | grafos/grafos/cpp/GrafoDisperso.cpp:58-61 | the extraction skips exactly the leading whitespace: every skipped char is blank, and the one it stops at is not |
| Lectura.FinDigitos | grafos/grafos/cpp/GrafoDisperso.cpp:61 | the digits of a token run up to the first non-digit |
| Lectura.ExtraerEntero | grafos/grafos/cpp/GrafoDisperso.cpp:61 | one `>> int` either fails or yields a value in the 32-bit range and a position past at least one char, which ends the input or is not a digit |
| Lectura.ParsearLinea | grafos/grafos/cpp/GrafoDisperso.cpp:54-61 | a line parses only when it is non-empty and does not start with `#`, and both values are 32-bit ints |
| Lectura.Aristas | grafos/grafos/cpp/GrafoDisperso.cpp:52-69 | a file gives at most one edge per line |
| Lectura.AristasConcat | grafos/grafos/cpp/GrafoDisperso.cpp:52-69 | the accepted edges of two concatenated files are those of the first followed by those of the second |
| Lectura.LineaDeArista | grafos/grafos/cpp/GrafoDisperso.cpp:52-69 | every accepted edge comes from a line that parses to it |
| Lectura.AristaDeLinea | grafos/grafos/cpp/GrafoDisperso.cpp:61-67 | every line that parses to an edge contributes that edge |
| Lectura.AristasSonLineasAceptadas | grafos/grafos/cpp/GrafoDisperso.cpp:52-69 | an edge is accepted if and only if some line parses to it (bad lines are skipped silently) |
| Lectura.AceptadaEn | grafos/grafos/cpp/GrafoDisperso.cpp:52-69 | the edge a line gives is among the accepted edges of any file holding that line |
| Lectura.ComentarioIgnorado | grafos/grafos/cpp/GrafoDisperso.cpp:54-56 | a comment line and the empty line give no edge |
| Lectura.Extremos | grafos/grafos/cpp/GrafoDisperso.cpp:63-64 | the ids an edge list registers: each edge's origin, then its destination, in file order |
| Lectura.Destinos | grafos/grafos/cpp/GrafoDisperso.cpp:66 | a node's destinations number at most the edges |
| Lectura.MostrarNat | grafos/grafos/cpp/GrafoDisperso.cpp:61 | the decimal text of a natural number is a non-empty run of digits |
| Lectura.ValorMostrarNat | grafos/grafos/cpp/GrafoDisperso.cpp:61 | reading back the decimal text of `n` gives `n` |
| Lectura.ExtraerMostrar | grafos/grafos/cpp/GrafoDisperso.cpp:61 | after any prefix and blanks, the text of a 32-bit int extracts as that int, whatever non-digit text follows it |
| Lectura.ExtraerToken | grafos/grafos/cpp/GrafoDisperso.cpp:61 | a token of blanks, an optional sign and digits extracts as its signed value and stops right after its digits |
| Lectura.ValorCifras | grafos/grafos/cpp/GrafoDisperso.cpp:61 | the value of a digit run is positional decimal: the last digit is the units digit, the rest is the value of the shorter run, and `k` digits stay below `10^k` |
| Lectura.Aceptada | grafos/grafos/cpp/GrafoDisperso.cpp:54-67 | a line contributes at most one edge; it contributes one if and only if it parses, and then the parsed edge |
| Lectura.ExtraerTokenRango | grafos/grafos/cpp/GrafoDisperso.cpp:61 | on a token of blanks, an optional sign and digits, `>> int` fails if and only if the value lies outside the 32-bit range |
| Lectura.ExtraerTokenFuera | grafos/grafos/cpp/GrafoDisperso.cpp:61 | a token whose value lies outside the 32-bit range fails to extract |
| Lectura.PasosTokenFuera | grafos/grafos/cpp/GrafoDisperso.cpp:61 | the same, stated on the positions of the token's parts |
| Lectura.Limites | grafos/grafos/cpp/GrafoDisperso.cpp:61 | the extraction skips the token's blanks and stops its digits where the token's parts say |
| Lectura.ExtraerDeFuera | grafos/grafos/cpp/GrafoDisperso.cpp:61 | digits whose signed value lies outside the 32-bit range fail to extract |
| Lectura.SinDigitos | grafos/grafos/cpp/GrafoDisperso.cpp:61 | blanks and an optional sign followed by no digit fail to extract |
| Lectura.ParsearDe | grafos/grafos/cpp/GrafoDisperso.cpp:54-61 | a non-comment line whose first two extractions give `origen` and `destino` parses to that edge |
| Lectura.ParsearLineaFormateada | grafos/grafos/cpp/GrafoDisperso.cpp:58-61 | a line holding two formatted ints separated by blanks parses to them, and any extra tokens after them are ignored |
| Lectura.AristasSeis | grafos/grafos/cpp/GrafoDisperso.cpp:52-69 | a six-line file gives the contributions of its lines, in order |
| Lectura.AristasCinco | grafos/grafos/cpp/GrafoDisperso.cpp:52-69 | six lines, the first rejected and each other accepted, give those five edges in order |
| Lectura.LineaEjemplo | grafos/grafos/cpp/GrafoDisperso.cpp:58-61 | a line of two one-digit ids separated by a blank parses to them |
| Lectura.LineasEjemplo | grafos/grafos/cpp/GrafoDisperso.cpp:54-67 | each line of the sample file `# muestra`, `0 1`, `0 2`, `1 3`, `2 3`, `3 4` gives the expected edge, and the comment gives none |
| Lectura.AristasEjemplo | grafos/grafos/cpp/GrafoDisperso.cpp:52-69 | the sample file gives `[(0,1), (0,2), (1,3), (2,3), (3,4)]` |
| Registro.Paso | grafos/grafos/cpp/GrafoDisperso.cpp:18-25 | a known id leaves the tables unchanged; an unknown one gets index `siguiente_indice`, which then grows by one; the maps stay inverse and no entry changes |
| Registro.PasoInversos | grafos/grafos/cpp/GrafoDisperso.cpp:19-23 | inserting an unknown id at the next free index keeps the maps mutual inverses over `[0, siguiente_indice)` |
| Registro.Registrar | grafos/grafos/cpp/GrafoDisperso.cpp:18-25 | registering a list of ids keeps the maps inverse, keeps every old entry, and makes the registered ids exactly the old ones plus the listed ones |
| Registro.Nuevos | grafos/grafos/cpp/GrafoDisperso.cpp:18-25 | the ids a list adds: exactly the listed ids not yet known, each once |
| Registro.Traducir | grafos/grafos/cpp/GrafoDisperso.cpp:63-66 | an edge list in ids, translated edge by edge into dense indices |
| Registro.OrdenDeAparicion | grafos/grafos/cpp/GrafoDisperso.cpp:18-25 | new ids get the dense indices `siguiente, siguiente+1, …` in order of first appearance, and the next free index grows by their number |
| Registro.IndiceDeNuevo | grafos/grafos/cpp/GrafoDisperso.cpp:18-25 | the `k`-th new id gets index `siguiente + k` |
| Registro.NuevosEnOrden | grafos/grafos/cpp/GrafoDisperso.cpp:18-25 | of two new ids, the one that appears first in the list is added first |
| Registro.Inyectiva | grafos/grafos/cpp/GrafoDisperso.cpp:18-25 | under inverse maps two ids share an index only if they are the same id |
| Registro.TraducirExtendido | grafos/grafos/cpp/GrafoDisperso.cpp:18-25 | since ids never lose their index, later registrations leave earlier edges' indices unchanged |
| Csr.Fila | grafos/grafos/cpp/GrafoDisperso.h:18-20 | row `i` of a well-formed layout has `row_ptr[i+1]-row_ptr[i]` entries, all of them nodes |
| Csr.DestinosMiembro | grafos/grafos/cpp/GrafoDisperso.cpp:66 | `j` is in `i`'s destinations if and only if `(i, j)` is an edge |
| Csr.AplanarLongitud | grafos/grafos/cpp/GrafoDisperso.cpp:89-97 | the concatenated rows hold every edge once: there are `num_aristas` columns |
| Csr.AplanarPrefijo | grafos/grafos/cpp/GrafoDisperso.cpp:80-86 | the rows of the indices below `i` laid out in order are a prefix of the rows below any `j >= i`, so the offsets `row_ptr` records never decrease |
| Csr.ConstruidoBien | grafos/grafos/cpp/GrafoDisperso.cpp:77-97 | a built layout has `num_nodos+1` offsets, `row_ptr[0] = 0`, non-decreasing offsets, `row_ptr[num_nodos] = |col_indices|`, node-valued columns, and row `i` is `i`'s destinations in file order |
| Csr.FilaConstruida | grafos/grafos/cpp/GrafoDisperso.cpp:88-97 | in a built layout, row `i` equals `i`'s destinations |
| Csr.Vecinos | grafos/grafos/cpp/GrafoDisperso.cpp:143-147 | the neighbours the search scans are nodes |
| Csr.AlcanzaCero | grafos/grafos/cpp/GrafoDisperso.cpp:128-129 | within 0 edges, only the start is reachable |
| Csr.AlcanzaPaso | grafos/grafos/cpp/GrafoDisperso.cpp:146-152 | a neighbour of a node reachable within `k` edges is reachable within `k+1` |
| Csr.AlcanzaEnRango | grafos/grafos/cpp/GrafoDisperso.cpp:143-147 | every node reachable from the start is a valid index |
| Csr.AlcanzaCrece | grafos/grafos/cpp/GrafoDisperso.cpp:138-153 | reachable within `i` edges means reachable within any larger bound |
| Csr.AlcanzaPrevio | grafos/grafos/cpp/GrafoDisperso.cpp:131-153 | a node first reachable at `k+1` edges is a neighbour of a node reachable within `k` |
| Csr.AlcanzaCapas | grafos/grafos/cpp/GrafoDisperso.cpp:131-153 | reachable within `k+1` edges means reachable within `k`, or a neighbour of such a node |
| Recorrido.Tope | grafos/grafos/cpp/GrafoDisperso.cpp:138-140 | the depth test `profundidad >= profundidadMaxima` cuts at depth 0 when the limit is not positive, and at the limit otherwise |
| Recorrido.Rango | grafos/grafos/cpp/GrafoDisperso.cpp:126-129 | helper of `Recorrido.Acotado`: the indices `0 .. n-1`, each once, in order |
| Recorrido.Universo | grafos/grafos/cpp/GrafoDisperso.cpp:126-129 | helper of `Recorrido.Acotado`: the set of the `n` node indices |
| Recorrido.UniversoTam | grafos/grafos/cpp/GrafoDisperso.cpp:126-129 | helper of `Recorrido.Acotado`: there are exactly `n` node indices |
| Recorrido.Palomar | grafos/grafos/cpp/GrafoDisperso.cpp:126-151 | helper of `Recorrido.Acotado`: distinct nodes drawn from a set are at most as many as the set |
| Recorrido.Inicio | grafos/grafos/cpp/GrafoDisperso.cpp:125-129 | the queue `[(start, 0)]` with `start` visited satisfies the loop invariant |
| Recorrido.DistanciaMinima | grafos/grafos/cpp/GrafoDisperso.cpp:131-153 | a node reachable in `d` steps is at distance at most `d` |
| Recorrido.EnFila | grafos/grafos/cpp/GrafoDisperso.cpp:143-147 | a cell of row `u` holds a neighbour of `u` |
| Recorrido.CeldaDe | grafos/grafos/cpp/GrafoDisperso.cpp:143-147 | every neighbour of `u` sits in some cell of row `u` |
| Recorrido.Cubre | grafos/grafos/cpp/GrafoDisperso.cpp:131-153 | once every pair shallower than `j` is dequeued and expanded, every node within `j` edges is discovered |
| Recorrido.Desencolar | grafos/grafos/cpp/GrafoDisperso.cpp:131-133 | popping the front keeps the queue sorted by depth, and every node closer than the popped one is already visited |
| Recorrido.Avanzar | grafos/grafos/cpp/GrafoDisperso.cpp:131-133 | popping keeps the front bound, and every shallower pair is already behind |
| Recorrido.PosicionesAgregar | grafos/grafos/cpp/GrafoDisperso.cpp:149-151 | recording a new node at the back keeps `pos` the positions of the record |
| Recorrido.DistanciaNueva | grafos/grafos/cpp/GrafoDisperso.cpp:149-151 | an undiscovered neighbour of a node at distance `d`, once all of level `d` is discovered, is at distance `d+1` |
| Recorrido.Terminar | grafos/grafos/cpp/GrafoDisperso.cpp:138-153 | once a node's row is scanned (or it is at the limit), every neighbour it must contribute is visited |
| Recorrido.Final | grafos/grafos/cpp/GrafoDisperso.cpp:131-154 | when the queue is empty, the dequeued nodes start at the start node, repeat no node, are exactly the nodes within `Tope(profundidadMaxima)` edges, and come by non-decreasing distance |
| Recorrido.Ranuras | grafos/grafos/cpp/GrafoDisperso.cpp:146-152 | the cells at which the row scan pushes lie within the scanned row |
| Recorrido.Encolados | grafos/grafos/cpp/GrafoDisperso.cpp:151 | one pushed pair per picked cell |
| Recorrido.EncoladosIndices | grafos/grafos/cpp/GrafoDisperso.cpp:151 | the pair pushed for the `t`-th picked cell is that cell's node at depth `d` |
| Recorrido.RanurasOrden | grafos/grafos/cpp/GrafoDisperso.cpp:146-152 | the picked cells come in strictly increasing order and hold nodes not visited before the scan |
| Recorrido.VistosCeldas | grafos/grafos/cpp/GrafoDisperso.cpp:146-150 | a node is marked by the scan if and only if some scanned cell holds it |
| Recorrido.RanurasCubren | grafos/grafos/cpp/GrafoDisperso.cpp:146-152 | every scanned cell holds a node visited before the scan or the node of a picked cell at or before it |
| Recorrido.RecorrerVistos | grafos/grafos/cpp/GrafoDisperso.cpp:146-150 | the scan adds to the visited set exactly the nodes of the scanned cells |
| Recorrido.RecorrerMarca | grafos/grafos/cpp/GrafoDisperso.cpp:146-150 | the node of every scanned cell is visited after the scan |
| Recorrido.Empujar | grafos/grafos/cpp/GrafoDisperso.cpp:151 | one more picked cell pushes its node behind the others |
| Recorrido.RecorrerCola | grafos/grafos/cpp/GrafoDisperso.cpp:146-152 | the scan appends to the queue, and to the record, exactly the nodes of the picked cells, in row order |
| Recorrido.RecorrerPosiciones | grafos/grafos/cpp/GrafoDisperso.cpp:149-151 | the scan keeps `pos` the positions of the record and the visited set its keys |
| Recorrido.Nuevos | grafos/grafos/cpp/GrafoDisperso.cpp:146-152 | each pair the scan of a node at distance `d` pushes is a node not discovered before, at depth and distance `d+1` |
| Recorrido.Anexados | grafos/grafos/cpp/GrafoDisperso.cpp:151 | appending those pairs keeps the invariant and the front |
| Recorrido.ExpandidosCrece | grafos/grafos/cpp/GrafoDisperso.cpp:131-153 | the record and its positions only grow, so what was expanded stays expanded |
| Recorrido.Anexar | grafos/grafos/cpp/GrafoDisperso.cpp:151 | pushing at the back extends the record the queue is the tail of |
| Recorrido.Expandido | grafos/grafos/cpp/GrafoDisperso.cpp:143-153 | after the row scan of the front (below the limit) the invariant holds, the front counts as expanded, the visited set is the set of queued nodes, and the queue is the tail of the record |
| Recorrido.Expandir | grafos/grafos/cpp/GrafoDisperso.cpp:143-153 | the row loop pushes onto the queue, and appends to the record, exactly `Empujados`: the row's neighbours not yet visited, each once, in `col_indices` order, at depth `d`; the visited set gains the row's nodes; the new state is the cell-by-cell scan `Recorrer` |
| Recorrido.Acotado | grafos/grafos/cpp/GrafoDisperso.cpp:126-151 | no node is queued twice, so the queue history never exceeds `num_nodos` (the loop terminates) |
| Recorrido.PrimerosIndices | grafos/grafos/cpp/GrafoDisperso.cpp:136 | the dequeued nodes are the nodes of the record's first pairs, position by position |
| Recorrido.PrimerosPrefijo | grafos/grafos/cpp/GrafoDisperso.cpp:131-136 | pairs pushed behind position `m` do not change the nodes dequeued before it |
| Recorrido.Anotar | grafos/grafos/cpp/GrafoDisperso.cpp:136 | pushing `obtenerId(nodo_actual)` keeps the result the index order read through `index_to_id` |
| Recorrido.Nodos | grafos/grafos/cpp/GrafoDisperso.cpp:126-150 | every node of the record is in its node set |
| Recorrido.Claves | grafos/grafos/cpp/GrafoDisperso.cpp:126-150 | the visited set is exactly the set of recorded nodes |
| Recorrido.HistorialPaso | grafos/grafos/cpp/GrafoDisperso.cpp:131-153 | the reference record after one more dequeue: the front's unvisited row entries in row order at depth+1 appended when the front is below the limit, and the record unchanged otherwise |
| Recorrido.Fijo | grafos/grafos/cpp/GrafoDisperso.cpp:131 | a dequeue past the end of the reference record leaves it as it is |
| Recorrido.Estable | grafos/grafos/cpp/GrafoDisperso.cpp:131-154 | once every pair has been dequeued the reference record no longer changes |
| Recorrido.OrdenDe | grafos/grafos/cpp/GrafoDisperso.cpp:131-154 | the reference order `Orden` is the nodes of the reference record after `n` dequeues |
| Recorrido.Comienzo | grafos/grafos/cpp/GrafoDisperso.cpp:125-129 | the initial queue, visited set and record are the loop state after 0 dequeues, against the reference record |
| Recorrido.VueltaTope | grafos/grafos/cpp/GrafoDisperso.cpp:131-140 | dequeuing a node at the limit keeps the loop state, against the reference record, and appends the node to the order |
| Recorrido.VueltaFila | grafos/grafos/cpp/GrafoDisperso.cpp:131-153 | dequeuing a node below the limit and scanning its row keeps the loop state, against the reference record, appends the node to the order, and decreases the termination measure |
| Recorrido.Vuelta | grafos/grafos/cpp/GrafoDisperso.cpp:131-153 | one iteration of the queue loop, in either case, keeps the loop state and extends the order by the dequeued node |
| Recorrido.Agotado | grafos/grafos/cpp/GrafoDisperso.cpp:131-154 | when the queue is empty the dequeued nodes are a search result and equal the reference order `Orden`, with at least one and at most `num_nodos` nodes, the first being the start |
| Recorrido.Turno | grafos/grafos/cpp/GrafoDisperso.cpp:131-153 | one loop body: below the limit the queue and the record grow by exactly the row's unvisited neighbours in row order; at the limit only the pop happens |
| Recorrido.Buscar | grafos/grafos/cpp/GrafoDisperso.cpp:125-154 | the result in indices is a search result (starts at the start node, repeats no node, holds exactly the nodes reachable within `max(profundidadMaxima, 0)` edges, non-decreasing distance) and is exactly the reference order `Orden`: level by level, and inside a level in push order; the ids returned are those indices through `index_to_id`, so the first is the start's id and there are at most `num_nodos` of them |
| Recorrido.SinProfundidad | grafos/grafos/cpp/GrafoDisperso.cpp:138-140 | with `profundidadMaxima <= 0` the search returns only its start |
| Recorrido.EjemploBien | grafos/grafos/cpp/GrafoDisperso.cpp:131-154 | the five-node graph with rows `[1,2]`, `[3]`, `[3]`, `[4]`, `[]` is a well-formed layout |
| Recorrido.EjemploFila | grafos/grafos/cpp/GrafoDisperso.cpp:146-152 | on that graph the row scan of node 0 with 0 visited pushes `(1,1)` then `(2,1)`, in `col_indices` order |
| Recorrido.EjemploRegistro | grafos/grafos/cpp/GrafoDisperso.cpp:131-153 | on that graph with limit 1 the record after three dequeues is `[(0,0), (1,1), (2,1)]` |
| Recorrido.OrdenEjemplo | grafos/grafos/cpp/GrafoDisperso.cpp:131-154 | on that graph with limit 1 the search from 0 returns `[0, 1, 2]` and not `[0, 2, 1]` |
| Subgrafo.Salientes | grafos/grafos/cpp/GrafoDisperso.cpp:239-246 | a node's kept edges are at most its row |
| Subgrafo.SalientesMiembro | grafos/grafos/cpp/GrafoDisperso.cpp:239-246 | a node's row keeps exactly its pairs `(u, v)` with `v` in the set |
| Subgrafo.InducidasMiembro | grafos/grafos/cpp/GrafoDisperso.cpp:228-247 | an edge is returned if and only if its origin is listed, its destination is in the set, and it is a loaded edge |
| Subgrafo.SubgrafoInducido | grafos/grafos/cpp/GrafoDisperso.cpp:218-251 | the returned edges are exactly the loaded edges with both ends listed (unknown ids contribute nothing) |
| Subgrafo.InducidasConcat | grafos/grafos/cpp/GrafoDisperso.cpp:228-247 | the result is origin-major in list order, so a repeated node repeats its edges |
| Subgrafo.InducidasPaso | grafos/grafos/cpp/GrafoDisperso.cpp:228-247 | one more listed node appends its filtered row |
| Subgrafo.InducidasUno | grafos/grafos/cpp/GrafoDisperso.cpp:236-246 | a single node's edges come in its stored row order |
| Subgrafo.DestinosEjemplo | grafos/grafos/cpp/GrafoDisperso.cpp:236-246 | among the sample edges, 0 has destinations `[1, 2]`, and 1 and 2 each have `[3]` |
| Subgrafo.SalientesEjemplo | grafos/grafos/cpp/GrafoDisperso.cpp:239-246 | filtering those rows by `{0, 1, 2}` keeps `(0,1), (0,2)` and drops the edges to 3 |
| Subgrafo.InducidasMuestra | grafos/grafos/cpp/GrafoDisperso.cpp:228-247 | on the sample edges, the subgraph of `[0, 1, 2]` is `[(0,1), (0,2)]` |
| Subgrafo.InducidasEjemplo | grafos/grafos/cpp/GrafoDisperso.cpp:218-251 | the same for the edges the sample file loads |
| Grafo.Redimensionar | grafos/grafos/cpp/GrafoDisperso.cpp:77 | `resize` keeps the old prefix and pads with the fill value |
| Grafo.AgruparDestinos | grafos/grafos/cpp/GrafoDisperso.cpp:66 | the temporary list of index `i` is `i`'s destinations in file order |
| Grafo.AgruparListas | grafos/grafos/cpp/GrafoDisperso.cpp:66 | the same for every index at once |
| Grafo.DestinosTraducidos | grafos/grafos/cpp/GrafoDisperso.cpp:63-66 | translating the edges into indices translates each node's destinations |
| Grafo.SinSalientes | grafos/grafos/cpp/GrafoDisperso.cpp:169-171 | an id without an index inside the layout has no loaded edge leaving it |
| Grafo.RegistrarExtremos | grafos/grafos/cpp/GrafoDisperso.cpp:63-64 | registering edge by edge, origin before destination, is registering the list of their ends, so `Registro.OrdenDeAparicion` applies to a load |
| Grafo.RegistrarUno | grafos/grafos/cpp/GrafoDisperso.cpp:229 | listing one more id registers one more id |
| Grafo.AgruparArista | grafos/grafos/cpp/GrafoDisperso.cpp:66 | pushing an accepted edge keeps the lists the grouped edges read so far |
| Grafo.AristaLeida | grafos/grafos/cpp/GrafoDisperso.cpp:61-67 | an accepted line registers its two ends, keeps the maps inverse, and pushes one translated edge |
| Grafo.RegistrarAristasConcat | grafos/grafos/cpp/GrafoDisperso.cpp:52-69 | registering two edge lists in turn is registering their concatenation |
| Grafo.CargarUna | grafos/grafos/cpp/GrafoDisperso.cpp:52-69 | reading one more line is one more iteration of the parse loop |
| Grafo.CargarCorrecta | grafos/grafos/cpp/GrafoDisperso.cpp:52-69 | after the parse loop, the maps stay inverse, the ends of the accepted edges are registered in file order, `aristas_leidas` is the number of accepted lines, and the temporary lists are the accepted edges grouped by origin index |
| Grafo.SiguienteInicio | grafos/grafos/cpp/GrafoDisperso.cpp:80-86 | each row starts where the previous one ends, whether or not the index has a temporary list |
| Grafo.ConcatenarCrece | grafos/grafos/cpp/GrafoDisperso.cpp:80-86 | the offsets are non-decreasing |
| Grafo.ConcatenarAplanar | grafos/grafos/cpp/GrafoDisperso.cpp:88-97 | the lists laid out one after the other are the rows of the loaded edges |
| Grafo.Escribir | grafos/grafos/cpp/GrafoDisperso.cpp:93-95 | writing one more neighbour extends the written prefix by it |
| Grafo.MayorGrado | grafos/grafos/cpp/GrafoDisperso.cpp:204-213 | `(-1, -1)` with no rows; otherwise an index whose degree is at least every degree, with every lower index of smaller degree (ties go to the lowest index) |
| Grafo.PasoCoherente | grafos/grafos/cpp/GrafoDisperso.cpp:18-25 | registering any id keeps the class invariant, since a new id lies outside the layout |
| Grafo.MemoriaPaso | grafos/grafos/cpp/GrafoDisperso.cpp:260-272 | an unknown id grows the estimate by two map entries; a known one leaves it as it is |
| Grafo.LongitudCarga | grafos/grafos/cpp/GrafoDisperso.cpp:73-74 | after the parse loop every edge lies within `siguiente_indice` nodes and the lists hold `aristas_leidas` entries |
| Grafo.CargaCoherente | grafos/grafos/cpp/GrafoDisperso.cpp:73-97 | the arrays the index loops build satisfy the class invariant |
| Grafo.IdsDe | grafos/grafos/cpp/GrafoDisperso.cpp:188-190 | translating a row back into ids keeps its length |
| Grafo.FilaDeCarga | grafos/grafos/cpp/GrafoDisperso.cpp:185-186 | row `i` of a load is the stretch `col_indices[row_ptr[i] .. row_ptr[i+1])`, and it holds `i`'s destinations |
| Grafo.FilaTraducida | grafos/grafos/cpp/GrafoDisperso.cpp:185-190 | under the invariant, the row of a known id read back into ids is that id's loaded destinations in file order |
| Grafo.ConjuntoDe | grafos/grafos/cpp/GrafoDisperso.cpp:220-225 | the set holds exactly the listed ids |
| Grafo.Renombrar | grafos/grafos/cpp/GrafoDisperso.cpp:188-190 | the loop returns the row's indices read back, in order, through `index_to_id` |
| Grafo.Filtrar | grafos/grafos/cpp/GrafoDisperso.cpp:239-246 | the loop keeps, in order, the pairs `(nodo, id)` of the row whose id is in the set |
| Grafo.AgruparClaves | grafos/grafos/cpp/GrafoDisperso.cpp:66 | `operator[]` creates a temporary list exactly for the origins of the edges |
| Grafo.LeerUna | grafos/grafos/cpp/GrafoDisperso.cpp:53-68 | a line that does not parse changes nothing; an accepted one registers both ends and counts one more edge; the maps stay inverse and keep every earlier entry |
| Grafo.Cargar | grafos/grafos/cpp/GrafoDisperso.cpp:52-69 | the loop counts exactly the accepted lines |
| Grafo.ConcatenarMiembro | grafos/grafos/cpp/GrafoDisperso.cpp:88-97 | a value is laid out if and only if it is in the list of some index below `num_nodos` |
| Grafo.Memoria | grafos/grafos/cpp/GrafoDisperso.cpp:260-272 | the estimate is never below four bytes per CSR cell, and never negative |
| Grafo.IdDeInverso | grafos/grafos/cpp/GrafoDisperso.cpp:18-32 | under inverse maps `obtenerId` undoes `obtenerIndice`: a registered id comes back from its index, an index below `siguiente_indice` gives a registered id owning it, and any other index gives `-1` |
| Grafo.GrafoDisperso.Forma | grafos/grafos/cpp/GrafoDisperso.h:18-20 | a loaded object's arrays are a well-formed CSR layout |
| Grafo.GrafoDisperso.Disposicion | grafos/grafos/cpp/GrafoDisperso.h:18-20 | a loaded object's row `i` is the row of the loaded edges in dense indices |
| Grafo.GrafoDisperso.FilaDeId | grafos/grafos/cpp/GrafoDisperso.cpp:185-190 | the row of a known id read back into ids is its loaded destinations |
| Grafo.GrafoDisperso.GradoDeId | grafos/grafos/cpp/GrafoDisperso.cpp:174 | the stored degree of a known id is its number of loaded edges |
| Grafo.GrafoDisperso.constructor | grafos/grafos/cpp/GrafoDisperso.cpp:9-12 | all counters 0, both arrays and both maps empty, memory estimate 0 |
| Grafo.GrafoDisperso.ObtenerIndice | grafos/grafos/cpp/GrafoDisperso.cpp:18-25 | the tables become `Paso(old, id)`; the id is registered and `idx` is its index; `idx` is inside the layout if and only if the id had an index inside it before |
| Grafo.GrafoDisperso.ObtenerId | grafos/grafos/cpp/GrafoDisperso.cpp:27-32 | a held index gives the id registered at it; any other index gives `-1` |
| Grafo.GrafoDisperso.LeerLinea | grafos/grafos/cpp/GrafoDisperso.cpp:53-68 | one iteration: the new tables, lists and count are `LeerUna` of the old ones |
| Grafo.GrafoDisperso.LeerAristas | grafos/grafos/cpp/GrafoDisperso.cpp:52-69 | the parse loop registers the accepted edges' ends in file order and leaves the maps inverse; `aristas_leidas` counts the accepted lines; the lists group the translated edges |
| Grafo.GrafoDisperso.ConstruirFilas | grafos/grafos/cpp/GrafoDisperso.cpp:77-86 | `row_ptr` has `num_nodos+1` entries and `row_ptr[i]` is the total length of the lists of indices below `i` |
| Grafo.GrafoDisperso.CopiarFila | grafos/grafos/cpp/GrafoDisperso.cpp:93-95 | the inner loop writes one list at `pos .. pos+|list|`, and the cells before and after that stretch keep their values |
| Grafo.GrafoDisperso.ConstruirColumnas | grafos/grafos/cpp/GrafoDisperso.cpp:88-97 | `col_indices` is the lists of indices `0 .. num_nodos-1`, one after the other |
| Grafo.GrafoDisperso.Indexar | grafos/grafos/cpp/GrafoDisperso.cpp:73-97 | `num_nodos = siguiente_indice`, `num_aristas = aristas_leidas`, and the arrays are the CSR layout of the loaded edges |
| Grafo.GrafoDisperso.CargarDatos | grafos/grafos/cpp/GrafoDisperso.cpp:34-107 | a file that cannot be opened leaves every field unchanged; otherwise the old maps are extended (never cleared) with the accepted edges' ends in order, `num_nodos = siguiente_indice`, `num_aristas` is the number of accepted lines, and the arrays are their CSR layout |
| Grafo.GrafoDisperso.Bfs | grafos/grafos/cpp/GrafoDisperso.cpp:109-164 | the start id is registered; an unknown start gives `[]`; a known one gives, through `index_to_id`, a search result from it that is exactly the reference order `Recorrido.Orden` |
| Grafo.GrafoDisperso.ObtenerGrado | grafos/grafos/cpp/GrafoDisperso.cpp:166-175 | the id is registered; a known id gives its number of loaded edges, equal to `row_ptr[idx+1]-row_ptr[idx]`; an unknown one gives `-1` |
| Grafo.GrafoDisperso.GetVecinos | grafos/grafos/cpp/GrafoDisperso.cpp:177-193 | the id is registered; a known id gives its loaded destinations in file order; an unknown one `[]` |
| Grafo.GrafoDisperso.ObtenerNumNodos | grafos/grafos/cpp/GrafoDisperso.cpp:195-197 | `num_nodos` is at most `siguiente_indice`, matches `row_ptr`, and bounds every loaded edge's indices |
| Grafo.GrafoDisperso.ObtenerNumAristas | grafos/grafos/cpp/GrafoDisperso.cpp:199-201 | `num_aristas` is the number of loaded edges and of columns |
| Grafo.GrafoDisperso.ObtenerNodoMaxGrado | grafos/grafos/cpp/GrafoDisperso.cpp:203-216 | `(-1, -1)` for no nodes; otherwise the id of the lowest index of maximal out-degree and that degree |
| Grafo.GrafoDisperso.AristasDeNodo | grafos/grafos/cpp/GrafoDisperso.cpp:228-247 | one iteration of the outer loop registers the listed id and appends its filtered row |
| Grafo.GrafoDisperso.ObtenerAristasSubgrafo | grafos/grafos/cpp/GrafoDisperso.cpp:218-251 | every listed id is registered in list order; the result is, for each listed id in order, its loaded edges whose destination is listed |
| Grafo.GrafoDisperso.ObtenerMemoriaEstimada | grafos/grafos/cpp/GrafoDisperso.cpp:260-272 | four bytes per `row_ptr` and `col_indices` cell plus 40 bytes per entry of each of the two maps (`siguiente_indice` entries each), and never negative |
| Grafo.GrafoDisperso.ImprimirEstadisticas | grafos/grafos/cpp/GrafoDisperso.cpp:253-258 | the node count, the edge count and the estimate in whole megabytes (rounded down) |

## Left out

- The file itself is out of scope: opening it, `std::getline` splitting it into lines, and closing it. The file is an `Option<seq<string>>` of lines already split, where `None` means it could not be opened.
- Logging and timing are left out: `std::cout`/`std::cerr` messages and `std::chrono` timings have no observable effect on the state. `imprimirEstadisticas` returns the three numbers it prints.
- The destructor only logs.
- `GrafoBase.h` is a pure interface with no behaviour.
- The Python GUI, the smoke script, the build script and the Cython binding are not part of this model.
- `std::map`/`std::set`/`std::queue` are modelled as Dafny maps, sets and sequences. Their complexity is not modelled.
- Lectura.ExtraerEntero: models `operator>>(int&)` as blanks, an optional sign and decimal digits, rejecting values outside the 32-bit range. Locale-dependent blank classes and `istream` flags are not modelled.
- Grafo.GrafoDisperso.ObtenerMemoriaEstimada: uses unbounded integers for the `size_t` arithmetic, so wrap-around of a huge estimate is not modelled.
- The `int` counters (`num_nodos`, `num_aristas`, `siguiente_indice`, `aristas_leidas`) are unbounded integers. A 32-bit overflow past about two billion registered ids or edges is not modelled.
- Recorrido.Buscar and Recorrido.Expandir work on the values of `row_ptr`, `col_indices` and `index_to_id`. They are not inside the class, because BFS only reads those fields.
  - Grafo.Renombrar, Grafo.Filtrar, Grafo.ConjuntoDe and Grafo.MayorGrado hold the read-only loops of `getVecinos`, `obtenerAristasSubgrafo` and `obtenerNodoMaxGrado` in the same way.
  - The class methods call them on the current field values.
- Recorrido.Buscar: the queue is a sequence, and the search order is recorded in a ghost output `orden`.
- `obtenerId(-1)` and an id that is itself `-1` both give `-1`. The model keeps this ambiguity (`ObtenerId` returns `-1` for an index nobody holds) and does not resolve it.
- Grafo.GrafoDisperso.ObtenerNodoMaxGrado: the winning index is a ghost output. The id it returns is `obtenerId` of that index.
