# Cash register change engine — a verified Dafny model

This project models the core of a PHP cash-register application. The register holds counts of
fifteen euro denominations: seven bills (500 € to 5 €) and eight coins (2 € to 1 cent). For one
sale, given the amount due and the amount handed over, the engine decides which notes and coins
to give back, flags the sale as impossible when the stock cannot make exact change, and computes
the register after the sale.

The model covers these parts of the application:

- the denomination tables (`Currency`, and `$monnaie_config` used by the legacy scripts);
- the change engine `CashRegister::calculateChange`. It validates the amounts. It can use a
  preferred denomination first. It then runs a greedy pass, largest-first or smallest-first
  (`'reverse'`), capped by the stock. Finally it debits the change and credits the amount
  received, decomposed largest-first;
- the older scripts `backend/traitement_caisse.php` and `process_caisse.php`, with their single
  largest-first pass. They are proved to agree with the new engine when no denomination is
  preferred;
- the immutable snapshot `CashRegisterState` and the fluent `CashRegisterBuilder`;
- the `Invoice` entity: its number format, `fromArray`/`toArray`, the rows of its change table
  and its lookup tables;
- `TemplateEngine::render`, the `Router` (route registration, URI normalisation and first-match
  dispatch) and the `Autoloader`'s class-to-file mapping.

Money is integer cents throughout. A PHP array with string keys is a sequence of (key, value)
pairs in insertion order (module `Assoc`): `$a[$k] ?? $d` is `GetOr`, `$a[$k] = $v` is `Put`,
and `array_merge` is `Merge`. The engine's outputs `change_to_return` and `new_register` are
count sequences aligned with the denomination table. An empty `new_register` is `[]`.

Each engine loop is a `method`. It is proved equal to a specification function (`Spec`,
`LegacySpec`, `DispatchSpec`, `RenderSpec`). The lemmas state what the source promises about
those functions. Stateful objects (`CashRegisterBuilder`, `Router`) are classes whose methods
state the new value of every field.

Notable behaviours of the code, which the model follows:

- The snapshot does not reject unknown keys. `fromArray` silently drops them.
- Counts are never checked for negativity before the new register is built. `new_register` is
  `current - change + credit`, which is non-negative only where the current count is.
- A validation error does not stop the passes: they always run, from given - due. When given <
  due that amount is negative and nothing is taken. When due <= 0 <= given the amount is not
  negative, so change is handed out next to the error; only `new_register` stays empty.

## Model

| member | source | states |
|---|---|---|
| Currency.CentsStrictlyDecrease | app/Models/Currency.php:10-101 | the fifteen `centimes` strictly decrease, from 50000 to 1 |
| Currency.CentsPositive | app/Models/Currency.php:10-101 | every `centimes` value is positive (so pairwise distinct, with the above) |
| Currency.KeysDistinct | app/Models/Currency.php:10-101 | no key appears twice in the table |
| Currency.KeyPrefixes | app/Models/Currency.php:11-100 | the first seven keys start with `bill_`, the last eight with `coin_` |
| Currency.TableSize | app/Models/Currency.php:10-101 | the table has exactly 15 entries |
| Currency.GetConfig | app/Models/Currency.php:107-110 | no contract of its own: the table, whose facts are the lemmas above |
| Currency.ValueTable | app/Models/Currency.php:116-123 | the key-to-cents array: each table key, in order, with its cents |
| Currency.LabelTable | app/Models/Currency.php:129-136 | the key-to-label array: each table key, in order, with its label |
| Currency.GetValues | app/Models/Currency.php:116-123 | the loop yields the table's keys, in table order, each mapped to its `centimes` |
| Currency.GetLabels | app/Models/Currency.php:129-136 | the loop yields the table's keys, in table order, each mapped to its label |
| Currency.LabelTableUnique | app/Models/Currency.php:129-136 | the key-to-label array has no key twice |
| Currency.Get | app/Models/Currency.php:143-146 | an entry with that key for a key of the table, null (None) for any other string |
| Currency.IndexOf | app/Models/Currency.php:143-146 | the position of a key in the table, or None exactly when no entry has that key |
| Currency.IndexOfKey | app/Models/Currency.php:143-146 | the lookup finds every table key again at its own position |
| Currency.ValueTableFacts | app/Models/Currency.php:116-123 | the key-to-cents array has unique keys and positive, strictly decreasing values ending in 1 |
| Monnaie.ConfigShape | app/config/monnaie.php:6-97 | 15 entries whose `centimes` strictly decrease from 50000 to 1 |
| Monnaie.ConfigPrefixes | app/config/monnaie.php:7-95 | seven `billet_` keys, then eight `piece_` keys |
| Monnaie.SameValuesAsCurrency | app/config/monnaie.php:6-97 | position by position, the cents and labels equal those of the Currency table |
| Monnaie.KeysDistinct | app/config/monnaie.php:6-97 | no key appears twice |
| CashRegister.ValidationErrors | app/Models/CashRegister.php:89-99 | an error for due <= 0 and one for given < due, each exactly when its condition holds, in that order |
| CashRegister.Order | app/Models/CashRegister.php:124-127 | the greedy pass visits positions smallest-first exactly for `'reverse'`, largest-first for any other string |
| CashRegister.Stock | app/Models/CashRegister.php:135-137 | the register count read for each table key, 0 when the key is missing |
| CashRegister.Take | app/Models/CashRegister.php:135-142 | its contract gives only the length of the counts; what one use of a denomination does is stated by `TakeFacts` and `TakeConserves` |
| CashRegister.PreferredPass | app/Models/CashRegister.php:110-121 | its contract gives only the length of the counts; `PreferredFacts`, `PreferredConserves` and `PreferredTake` state what the pass does |
| CashRegister.GreedyPass | app/Models/CashRegister.php:130-143 | its contract gives only the length of the counts; `GreedyFrame`, `GreedyRemaining`, `GreedyCapped` and `GreedyConserves` state what the pass does |
| CashRegister.Passes | app/Models/CashRegister.php:99-143 | its contract gives only the length of the counts; `PassesConserve`, `PassesRemaining` and `PassesPreferred` state what the two passes do |
| CashRegister.Restock | app/Models/CashRegister.php:152-169 | current - change + credit, position by position; `WorthRestock` gives its worth |
| CashRegister.Credit | app/Models/CashRegister.php:159-168 | its contract gives only the length; `DecomposeConserves`, `DecomposeBounds` and `DecomposeExact` state what the decomposition is |
| CashRegister.Spec | app/Models/CashRegister.php:77-178 | no contract of its own: the result of `calculateChange`, whose properties are the `ChangeProperties.Spec*` lemmas |
| CashRegister.PreferredStep | app/Models/CashRegister.php:110-121 | the preferred-denomination block computes the preferred pass of the specification |
| CashRegister.GreedyLoop | app/Models/CashRegister.php:130-143 | the greedy loop computes the greedy pass of the specification over the given order |
| CashRegister.ChangePasses | app/Models/CashRegister.php:99-143 | zeroing every count, the preferred block and the greedy loop compute `Passes` for the algorithm's order |
| CashRegister.CreditLoop | app/Models/CashRegister.php:159-168 | the credit loop adds the largest-first, unbounded decomposition of the received cents to every count |
| CashRegister.NewRegisterLoop | app/Models/CashRegister.php:152-169 | the new register is current - change + credit for every key |
| CashRegister.CalculateChangeOver | app/Models/CashRegister.php:77-178 | the method body computes `Spec` over any valid key-to-cents table |
| CashRegister.CalculateChange | app/Models/CashRegister.php:77-178 | `calculateChange` over `Currency::getValues()` computes `StandardSpec`, the specification over the Currency table |
| CashRegister.StandardValues | app/Models/CashRegister.php:84 | `Currency::getValues()` has unique keys and positive values, as the engine needs |
| ChangeProperties.TakeFacts | app/Models/CashRegister.php:113-142 | one use of a denomination changes only its own count, takes 1..stock pieces worth at most the remainder and as many as fit, and keeps a non-negative remainder in 0..remaining |
| ChangeProperties.TakeConserves | app/Models/CashRegister.php:113-142 | one use of a denomination keeps the worth of the change plus the remainder |
| ChangeProperties.GreedyFrame | app/Models/CashRegister.php:130-133 | the greedy pass never changes the preferred key's count nor any position it does not visit |
| ChangeProperties.GreedyRemaining | app/Models/CashRegister.php:130-143 | from a non-negative amount the remainder stays between 0 and that amount; from a negative one nothing is taken |
| ChangeProperties.GreedyCapped | app/Models/CashRegister.php:135-142 | the greedy pass keeps every count between 0 and the stock |
| ChangeProperties.GreedyConserves | app/Models/CashRegister.php:130-143 | the greedy pass conserves the worth of the change plus the remainder |
| ChangeProperties.OrderFacts | app/Models/CashRegister.php:124-127 | both orders visit every position of the table once |
| ChangeProperties.GreedyIgnoresUnknownKey | app/Models/CashRegister.php:131-133 | a skip key that is not in the table skips nothing |
| ChangeProperties.SpecUnfold | app/Models/CashRegister.php:101-149 | the result's change, `impossible` flag, errors and amount returned come from the two passes |
| ChangeProperties.PositionOfKey | app/Models/CashRegister.php:110 | the `isset` lookup of a table key finds its own position |
| ChangeProperties.PreferredFacts | app/Models/CashRegister.php:110-121 | from a non-negative amount the preferred pass keeps the remainder in 0..amount, from a negative one it takes nothing; it stays within the stock and touches only the preferred key |
| ChangeProperties.PreferredConserves | app/Models/CashRegister.php:110-121 | the preferred pass conserves the amount: worth of the change plus the remainder |
| ChangeProperties.PreferredTake | app/Models/CashRegister.php:110-119 | for a key of a table with distinct keys, the preferred pass takes min(floor(amount/value), stock) when amount >= value and stock > 0, and 0 otherwise |
| ChangeProperties.PassesPreferred | app/Models/CashRegister.php:110-133 | after both passes the preferred key still holds what the preferred pass took |
| ChangeProperties.PassesConserve | app/Models/CashRegister.php:101-143 | after both passes the worth of the change plus the amount still missing is given - due |
| ChangeProperties.PassesRemaining | app/Models/CashRegister.php:101-143 | when given >= due the amount still missing after both passes lies between 0 and given - due |
| ChangeProperties.SpecConserves | app/Models/CashRegister.php:87-149 | worth of the change + final remainder = amount to return; `impossible` exactly when the remainder is > 0, then the last error names it; otherwise exact change |
| ChangeProperties.SpecCapped | app/Models/CashRegister.php:113-142 | every change count is >= 0, and a positive count is at most the current count of its key (a key with a count <= 0 gets 0) |
| ChangeProperties.SpecUnderpaid | app/Models/CashRegister.php:96-135 | given < due: its error is reported, every change count stays 0, nothing is impossible, the new register is empty |
| ChangeProperties.SpecNonPositiveDue | app/Models/CashRegister.php:92-143 | with due <= 0 <= given the first error is the due error, the passes still hand out change (exact when not impossible) and the new register is empty |
| ChangeProperties.NonPositiveDueExample | app/Models/CashRegister.php:92-143 | due 0, given 3 over one 1-cent value with 5 in stock: the due error, 3 pieces handed out, not impossible, no new register |
| ChangeProperties.SpecPreferred | app/Models/CashRegister.php:110-121 | the returned count of a known preferred key is exactly min(floor(amount/value), stock) when amount >= value and stock > 0, and 0 otherwise: the greedy pass never adds to it |
| ChangeProperties.PassesUnknownPreference | app/Models/CashRegister.php:110-131 | both passes treat an unknown preferred key as no preference |
| ChangeProperties.SpecUnknownPreference | app/Models/CashRegister.php:110-131 | an unknown preferred key gives the same result as no preference |
| ChangeProperties.SpecAlgorithm | app/Models/CashRegister.php:124-127 | any algorithm string other than `'reverse'` behaves as the standard order |
| ChangeProperties.SpecNewRegister | app/Models/CashRegister.php:152-168 | the new register exists exactly when there is no error; it is current - change + credit, non-negative where current is, and (with a 1-cent smallest value) its worth grows by exactly the amount due |
| ChangeMath.DecomposeConserves | app/Models/CashRegister.php:159-168 | the credit decomposition plus what it leaves equals the received amount |
| ChangeMath.DecomposeBounds | app/Models/CashRegister.php:159-168 | from a non-negative amount every credit count is >= 0 and what is left is below the last (smallest) value |
| ChangeMath.DecomposeExact | app/Models/Currency.php:95-99 | with a 1-cent smallest value the credit decomposition is exact |
| ChangeMath.WorthUpdate | app/Models/CashRegister.php:140-141 | setting one count changes the worth by the difference times its value |
| ChangeMath.WorthRestock | app/Models/CashRegister.php:152-168 | the worth of current - change + credit is the sum of the three worths |
| LegacyCaisse.BuildTables | app/backend/traitement_caisse.php:26-31 | the loop builds `ConfigValues` and `ConfigLabels`: every config key, in order, mapped to its cents and to its label |
| LegacyCaisse.ReadRegister | app/backend/traitement_caisse.php:34-37 | the register is the posted count of every key, 0 when missing |
| LegacyCaisse.GreedyLoop | app/backend/traitement_caisse.php:54-69 | the loop computes the single largest-first pass, with every count initialised to 0 |
| LegacyCaisse.NewRegisterLoop | app/backend/traitement_caisse.php:78-96 | the new register is current - change + the largest-first credit of the received cents |
| LegacyCaisse.Process | app/backend/traitement_caisse.php:40-96 | the script computes `LegacySpec` |
| LegacyCaisse.TraitementCaisse | app/backend/traitement_caisse.php:22-97 | the script computes `LegacySpec` over the `$monnaie_config` table |
| LegacyCaisse.ProcessCaisse | app/process_caisse.php:17-95 | the script computes `LegacySpec` over the table it loads |
| LegacyCaisse.LegacyFrom | app/backend/traitement_caisse.php:58-69 | its contract gives only the length; `LegacyFromCapped`, `LegacyFromConserves` and `LegacyFromRemaining` state what the pass does |
| LegacyCaisse.LegacyGreedy | app/backend/traitement_caisse.php:58-69 | its contract gives only the length; `LegacyGreedyFacts` and `GreedyPassIsLegacy` state what the pass does |
| LegacyCaisse.LegacySpec | app/backend/traitement_caisse.php:40-96 | no contract of its own: what the script computes, stated by `LegacyChangeFacts`, `LegacyNewRegister` and `LegacyAgreesWithEngine` |
| LegacyCaisse.MonnaieValues | app/config/monnaie.php:6-97 | the legacy key-to-cents array is valid for the engine and ends with 1 cent |
| LegacyProperties.LegacyGreedyFacts | app/backend/traitement_caisse.php:58-69 | each legacy count is between 0 and the stock; worth + remainder = amount; the remainder stays in 0..amount |
| LegacyProperties.LegacyFromCapped | app/backend/traitement_caisse.php:58-69 | from any position on, every legacy count is >= 0 and a positive count is at most the stock at its position |
| LegacyProperties.LegacyFromConserves | app/backend/traitement_caisse.php:58-69 | from any position on, the worth of the legacy counts plus what is left is the amount |
| LegacyProperties.LegacyFromRemaining | app/backend/traitement_caisse.php:58-69 | from a non-negative amount, what the legacy pass leaves lies between 0 and the amount |
| LegacyProperties.GreedyStepAt | app/Models/CashRegister.php:130-143 | one step of the engine's largest-first pass with no preference sets the count the legacy script computes and goes on with the rest |
| LegacyProperties.GreedyLegacyCounts | app/process_caisse.php:53-64 | from position k on, the engine's pass with no preference produces the legacy counts after the first k |
| LegacyProperties.GreedyLegacyRemainder | app/process_caisse.php:53-64 | from position k on, the engine's pass with no preference leaves what the legacy pass leaves |
| LegacyProperties.GreedyPassIsLegacy | app/process_caisse.php:53-64 | from any position on, the engine's standard pass with no preference is the legacy pass |
| LegacyProperties.PassesAreLegacy | app/process_caisse.php:53-64 | the engine's passes with `'greedy'` and no preference are the legacy pass |
| LegacyProperties.LegacyAgreesWithEngine | app/process_caisse.php:40-94 | the legacy scripts and `calculateChange(..., 'greedy', null)` give the same change, errors, flag and new register |
| LegacyProperties.LegacyChangeFacts | app/process_caisse.php:40-70 | the two validation errors exactly when due <= 0 and given < due; conservation; `impossible` exactly when something remains; counts within stock |
| LegacyProperties.LegacyNewRegister | app/process_caisse.php:73-94 | the new register exists exactly when there is no error; it is current - change + credit and its worth grows by the amount due |
| RegisterState.CashRegisterState.constructor | app/Entities/CashRegisterState.php:22-27 | stores both arrays and computes the total once (`Valid`: the total is `calculateTotal` of `getAll()`); all fields are constants |
| RegisterState.CashRegisterState.CalculateTotal | app/Entities/CashRegisterState.php:69-81 | the loop computes the total: cents times count over every key the Currency table knows |
| RegisterState.CashRegisterState.FromArray | app/Entities/CashRegisterState.php:97-121 | the seven bill keys and eight coin keys, each read from the data or 0, and a total equal to the worth of those counts over the table cents |
| RegisterState.TotalIgnoresUnknown | app/Entities/CashRegisterState.php:75-77 | an entry with an unknown key adds nothing to the total |
| RegisterState.TotalIsWorth | app/Entities/CashRegisterState.php:69-81 | when every key is valued at `cents[i]`, the total is the worth of the counts over those cents |
| RegisterState.TotalAppend | app/Entities/CashRegisterState.php:74-78 | totals add up over concatenation |
| RegisterState.Total | app/Entities/CashRegisterState.php:69-81 | no contract of its own; `TotalIgnoresUnknown`, `TotalAppend`, `TotalIsWorth` and `StandardTotal` state it |
| RegisterState.CashRegisterState.GetBills | app/Entities/CashRegisterState.php:33-36 | no contract of its own: the stored bills |
| RegisterState.CashRegisterState.GetCoins | app/Entities/CashRegisterState.php:42-45 | no contract of its own: the stored coins |
| RegisterState.CashRegisterState.GetAll | app/Entities/CashRegisterState.php:51-54 | no contract of its own; `StandardGetAll` states it for a standard snapshot |
| RegisterState.CashRegisterState.GetTotalCents | app/Entities/CashRegisterState.php:60-63 | no contract of its own: the total computed once by the constructor, in cents |
| RegisterState.StandardTotal | app/Entities/CashRegisterState.php:69-81 | the total of a standard snapshot is the worth of its counts over the table cents |
| RegisterState.StandardGetAll | app/Entities/CashRegisterState.php:51-54 | `getAll` of a standard snapshot is its bills followed by its coins |
| RegisterState.CashRegisterState.ToArray | app/Entities/CashRegisterState.php:87-90 | the same array as `getAll`: bills then coins for a standard snapshot (`StandardGetAll`) |
| RegisterState.FromArrayStandard | app/Entities/CashRegisterState.php:97-121 | `fromArray` yields exactly the fifteen standard keys, extra keys dropped |
| RegisterState.RoundTrip | app/Entities/CashRegisterState.php:87-121 | `fromArray(s.toArray())` has the counts of `s` when `s` holds exactly the standard keys |
| RegisterBuilder.CashRegisterBuilder.Create | app/Builders/CashRegisterBuilder.php:20-23 | a new builder with empty bills and coins |
| RegisterBuilder.CashRegisterBuilder.SetDenomination | app/Builders/CashRegisterBuilder.php:101-261 | each setter stores max(0, count) under its key, in the bills or coins by position, and changes nothing else |
| RegisterBuilder.CashRegisterBuilder.SetBills | app/Builders/CashRegisterBuilder.php:31-38 | the seven bill setters in order fill the bills with the clamped counts |
| RegisterBuilder.CashRegisterBuilder.SetCoins | app/Builders/CashRegisterBuilder.php:39-46 | the eight coin setters in order fill the coins with the clamped counts |
| RegisterBuilder.CashRegisterBuilder.WithDefaults | app/Builders/CashRegisterBuilder.php:29-47 | the counts 1,2,2,4,1,23,0 and 34,23,23,80,12,8,45,12 under the standard keys |
| RegisterBuilder.CashRegisterBuilder.Empty | app/Builders/CashRegisterBuilder.php:53-71 | every standard key at 0 |
| RegisterBuilder.CashRegisterBuilder.Distribute | app/Builders/CashRegisterBuilder.php:83-89 | keys starting with `bill_` go to the bills and every other key to the coins, assigned in order |
| RegisterBuilder.CashRegisterBuilder.FromState | app/Builders/CashRegisterBuilder.php:78-92 | a new builder holding the state's entries split by prefix |
| RegisterBuilder.CashRegisterBuilder.Add | app/Builders/CashRegisterBuilder.php:271-280 | (old or 0) + count for a `bill_` or `coin_` key, unclamped; other keys ignored; nothing else changes |
| RegisterBuilder.CashRegisterBuilder.Remove | app/Builders/CashRegisterBuilder.php:288-297 | max(0, (old or 0) - count), never negative; other keys ignored; nothing else changes |
| RegisterBuilder.CashRegisterBuilder.ResetBills | app/Builders/CashRegisterBuilder.php:303-315 | the seven bill keys at 0, coins unchanged |
| RegisterBuilder.CashRegisterBuilder.ResetCoins | app/Builders/CashRegisterBuilder.php:321-334 | the eight coin keys at 0, bills unchanged |
| RegisterBuilder.CashRegisterBuilder.Build | app/Builders/CashRegisterBuilder.php:340-365 | a snapshot of the defaults merged with the builder's arrays, whose total is `calculateTotal` of their merge (`Valid`) |
| RegisterBuilder.BuildFills | app/Builders/CashRegisterBuilder.php:340-365 | `build` holds every standard key first, in order; a key the builder holds keeps its count, another standard key is 0 |
| RegisterBuilder.BuildStandard | app/Builders/CashRegisterBuilder.php:340-365 | `build` changes nothing in a builder that already holds exactly the standard keys |
| RegisterBuilder.BuildDefaults | app/Builders/CashRegisterBuilder.php:29-71 | `withDefaults()->build()` and `empty()->build()` hold exactly what was set |
| RegisterBuilder.SelectStandard | app/Builders/CashRegisterBuilder.php:83-89 | splitting a standard snapshot by prefix gives back its bills and its coins |
| RegisterBuilder.FromStateBuild | app/Builders/CashRegisterBuilder.php:78-92 | `fromState(s)->build()` gives back the arrays of a standard snapshot `s` |
| InvoiceEntity.InvoiceNumberFormat | app/Entities/Invoice.php:114-119 | "INV-" + 8-character date + "-" + six digits reading back as the number in 0..999999: 19 characters |
| InvoiceEntity.InvoiceNumber | app/Entities/Invoice.php:114-119 | no contract of its own; `InvoiceNumberFormat` states its format |
| InvoiceEntity.PadLeft | app/Entities/Invoice.php:117 | left padding to the width, never truncating |
| InvoiceEntity.DecimalValue | app/Entities/Invoice.php:117 | the decimal text of a number reads back as the number |
| InvoiceEntity.FromArray | app/Entities/Invoice.php:124-147 | `change_returned` decoded when it is a text and kept otherwise; status defaults to 'pending'; user email kept as given (absent stays null) |
| InvoiceEntity.ToArray | app/Entities/Invoice.php:152-166 | `change_returned` as the decoded entries and the status as stored |
| InvoiceEntity.ArrayRoundTrip | app/Entities/Invoice.php:124-166 | `fromArray(toArray(i))` is `i` whenever the date format parses back |
| InvoiceEntity.RowRoundTrip | app/Entities/Invoice.php:124-166 | `toArray(fromArray(row))` is `row` for a row with a status, decoded change and a date text that formats back |
| InvoiceEntity.ChangeRows | app/Entities/Invoice.php:244-257 | the `toHtml` loop emits the rows of the specification, in order |
| InvoiceEntity.RowsAreThePositive | app/Entities/Invoice.php:244-256 | a row exactly for every change entry with quantity > 0 |
| InvoiceEntity.RowsAppend | app/Entities/Invoice.php:244-257 | the rows of a concatenation are the rows of each part |
| InvoiceEntity.InvoiceValuesAreCurrency | app/Entities/Invoice.php:278-283 | the `getCurrencyValue` table equals `Currency::getValues()` |
| InvoiceEntity.InvoiceTablesFacts | app/Entities/Invoice.php:278-299 | both private tables hold the Currency keys in table order, and the cents are the Currency cents |
| InvoiceEntity.LookupKeyedLikeCurrency | app/Entities/Invoice.php:285-301 | `$t[$key] ?? $default` on such a table is the default for an unknown key and the entry at the key's table position otherwise |
| InvoiceEntity.CurrencyValueIsCurrency | app/Entities/Invoice.php:276-286 | `getCurrencyValue` is the Currency cents of a known key and 0 otherwise |
| InvoiceEntity.CurrencyLabelFacts | app/Entities/Invoice.php:291-302 | `getCurrencyLabel` gives the key itself for an unknown key, its own label text otherwise |
| InvoiceEntity.InvoiceRowValue | app/Entities/Invoice.php:246-248 | a row's value is the Currency cents of its key and its total is value times quantity |
| InvoiceEntity.CurrencyValue | app/Entities/Invoice.php:276-286 | no contract of its own; `CurrencyValueIsCurrency` states it |
| InvoiceEntity.CurrencyLabel | app/Entities/Invoice.php:291-302 | no contract of its own; `CurrencyLabelFacts` states it |
| InvoiceEntity.RowOf | app/Entities/Invoice.php:246-248 | no contract of its own; `InvoiceRowValue` states a row's value and total |
| InvoiceEntity.Rows | app/Entities/Invoice.php:244-256 | no contract of its own; `RowsAreThePositive` and `RowsAppend` state which rows are emitted |
| TemplateEngine.Render | app/Services/TemplateEngine.php:17-45 | the method computes `RenderSpec`: substitution in variable order, then one cleanup pass |
| TemplateEngine.RenderSpec | app/Services/TemplateEngine.php:19-21 | a missing template fails, before any substitution; an existing one never fails |
| TemplateEngine.ReplaceFirst | app/Services/TemplateEngine.php:38 | `str_replace` rewrites the first occurrence and continues after it |
| TemplateEngine.ReplaceAbsent | app/Services/TemplateEngine.php:38 | `str_replace` leaves text without an occurrence unchanged |
| TemplateEngine.ReplaceAll | app/Services/TemplateEngine.php:38 | no contract of its own; `ReplaceFirst` and `ReplaceAbsent` state what `str_replace` does |
| TemplateEngine.Substitute | app/Services/TemplateEngine.php:26-39 | no contract of its own; `SubstituteAppend`, `SequentialRewrite` and `SubstituteNoOpen` state it |
| TemplateEngine.MatchAt | app/Services/TemplateEngine.php:42 | a match of `\{\{[^}]+\}\}` at the start is at least 5 characters and fits in the text; `PlaceholderMatches` gives the converse |
| TemplateEngine.SubstituteAppend | app/Services/TemplateEngine.php:26-39 | variables are processed in order, one after the other |
| TemplateEngine.SequentialRewrite | app/Services/TemplateEngine.php:26-39 | a value inserted for an earlier key is rewritten by a later key |
| TemplateEngine.SubstituteNoOpen | app/Services/TemplateEngine.php:26-39 | no variable changes a template without "{{" |
| TemplateEngine.CleanupNoOpen | app/Services/TemplateEngine.php:42 | the cleanup leaves a text without "{{" unchanged |
| TemplateEngine.RenderNoOpen | app/Services/TemplateEngine.php:26-44 | a template without "{{" is returned unchanged |
| TemplateEngine.Cleanup | app/Services/TemplateEngine.php:42 | the single cleanup pass never lengthens the text, and keeps its length only when it removes nothing |
| TemplateEngine.FixedHasNoPlaceholder | app/Services/TemplateEngine.php:42 | a text the cleanup leaves unchanged holds no `{{x}}` |
| TemplateEngine.CleanupLeavesPlaceholder | app/Services/TemplateEngine.php:42 | one pass turns "{{x}{{y}}}" into "{{x}}", which is a placeholder |
| TemplateEngine.RenderKeepsPlaceholder | app/Services/TemplateEngine.php:17-45 | as written, a render can return text holding a placeholder |
| TemplateEngine.StripPlaceholders | app/Services/TemplateEngine.php:41-42 | the repeated cleanup leaves no `{{x}}` with x non-empty and free of '}', and leaves a text without "{{" unchanged |
| TemplateEngine.RenderCorrected | app/Services/TemplateEngine.php:17-45 | with the repeated cleanup, a render never returns a placeholder |
| Router.Router.constructor | app/Core/Router.php:17-20 | a router with the given base path and no routes |
| Router.Router.AddRoute | app/Core/Router.php:52-63 | one route appended with its method, path, compiled pattern and handler |
| Router.Router.Get | app/Core/Router.php:28-31 | one GET route appended, in registration order |
| Router.Router.Post | app/Core/Router.php:39-42 | one POST route appended, in registration order |
| Router.CompileParam | app/Core/Router.php:54 | `{name}` compiles to one named group |
| Router.CompileLiteral | app/Core/Router.php:54 | a path without '{' compiles to its own characters |
| Router.Compile | app/Core/Router.php:54 | no contract of its own (its contract is its body); `CompileParam` and `CompileLiteral` state what it builds |
| Router.MatchTokens | app/Core/Router.php:55-89 | no contract of its own; `MatchSound`, `MatchComplete`, `MatchLiterals` and `ParamSuffix` state what it accepts and captures |
| Router.MatchGroup | app/Core/Router.php:54 | no contract of its own: the `[^/]+` group tried longest first with backtracking; `GroupSound` and `GroupComplete` state its meaning |
| Router.Accepts | app/Core/Router.php:89 | no contract of its own: same method and a matching pattern, the condition `FirstMatch` and `DispatchSpec` are stated with |
| Router.MatchSound | app/Core/Router.php:88-91 | a match names the groups in order, each capture is non-empty and free of '/', and the pattern filled with them is the whole URI |
| Router.MatchComplete | app/Core/Router.php:54-55 | conversely, a pattern filled with one non-empty, '/'-free capture per group, in order, is matched |
| Router.MatchLiterals | app/Core/Router.php:88-89 | a pattern without groups matches exactly its own text |
| Router.ParamSuffix | app/Core/Router.php:54-55 | a final group matches exactly the non-empty, '/'-free rest and captures it |
| Router.CutQuery | app/Core/Router.php:75-77 | everything from the first '?' on is dropped |
| Router.Normalize | app/Core/Router.php:74-85 | the normalised URI starts with exactly one '/' and holds no '?' |
| Router.Router.NormalizeUri | app/Core/Router.php:74-85 | the step-by-step rewrite computes `Normalize` |
| Router.BasePathUnchecked | app/Core/Router.php:80-82 | a non-empty base path removes that many characters, whatever they are; the rest gets one leading '/' |
| Router.QueryIgnored | app/Core/Router.php:75-77 | a URI with a query normalises as the part before '?' |
| Router.FirstMatch | app/Core/Router.php:88-98 | the first route in order whose method and pattern both match, or none when no route does |
| Router.DispatchSpec | app/Core/Router.php:88-100 | a handler is invoked exactly when some route takes the request; otherwise the 404 path |
| Router.Router.Dispatch | app/Core/Router.php:69-101 | the method computes `DispatchSpec`: the first accepting route's handler with its named captures, or the 404 outcome |
| Router.FirstMatchIs | app/Core/Router.php:88-96 | the route found is the one that accepts the request when no earlier route does |
| Router.LaterRoutesIgnored | app/Core/Router.php:88-96 | routes registered after the one that takes a request do not change where it goes |
| Autoloader.RelativeClass | app/Core/Autoloader.php:30-35 | no relative name unless the class starts with `App\`; the prefix is removed exactly once |
| Autoloader.FilePath | app/Core/Autoloader.php:30-38 | a file is computed exactly for a class whose name starts with `App\` |
| Autoloader.OutsideNamespace | app/Core/Autoloader.php:30-32 | a class outside `App\` causes no load |
| Autoloader.FilePathShape | app/Core/Autoloader.php:38 | ROOT_PATH + "/" + the relative name with '\' turned into '/' + ".php"; no backslash in the relative part |
| Autoloader.PrefixRemovedOnce | app/Core/Autoloader.php:35-38 | `App\App\X` is looked up under "App/X.php" |
| Autoloader.FilePathInjective | app/Core/Autoloader.php:35-38 | two classes without '/' map to the same file only when they are the same class |
| Autoloader.Autoload | app/Core/Autoloader.php:24-44 | the computed file is required exactly when it exists |
| Assoc.Find | app/Models/Currency.php:145 | a value exactly for a key of the array, and then one stored under that key |
| Assoc.GetOr | app/Entities/Invoice.php:285 | no contract of its own: `$a[$k] ?? $d` read through `Find` |
| Assoc.Put | app/Models/Currency.php:120 | `$a[$k] = $v`: the key then finds `v`, every other key finds what it found before; keys keep their order and an absent key is appended |
| Assoc.Merge | app/Entities/CashRegisterState.php:53 | no contract of its own; `MergeFind` and `MergeKeepsKeys` state `array_merge` for string keys |
| Assoc.MergeFind | app/Entities/CashRegisterState.php:53 | after `array_merge($a, $b)` a key of `b` finds its value in `b` and any other key its value in `a` |
| Assoc.MergeKeepsKeys | app/Entities/CashRegisterState.php:53 | `array_merge($a, $b)` starts with the keys of `a`, in their order |

## Findings

| source | as written | input that shows it | evidently intended | confidence | as-written member | corrected member |
|---|---|---|---|---|---|---|
| app/Services/TemplateEngine.php:42 | one `preg_replace` pass removes `{{...}}` matches left to right | the template "{{x}{{y}}}": removing "{{y}}" joins "{{x}" and "}" into the placeholder "{{x}}", which the pass has already gone by | no unreplaced placeholder survives the cleanup | low, not executed | TemplateEngine.CleanupLeavesPlaceholder | TemplateEngine.StripPlaceholders |

## Left out

- Floating point: the amounts arrive as integer cents. `floatval`, `round(x * 100)`, `number_format` and the euro totals divided by 100 are not modelled, and the engine's `amount_returned` is kept in cents. Float comparisons such as `$amountDue <= 0` are taken on the cents.
- The texts of the error messages: each error is a constructor that carries the amounts it would print.
- `CashRegister::getCurrentState` and `saveState`, and every database access: persistence is not part of this model.
- The HTTP layer: `$_SERVER`, `$_POST`, redirects, `exit`, the 404 page's output, `http_response_code` and the HTML that `process_caisse.php` prints from line 97 on. The legacy scripts take the posted counts as already-integer form entries (`intval` of arbitrary text is not modelled).
- `process_caisse.php` loads `config_monnaie.php`, which is not part of this model; `LegacyCaisse.ProcessCaisse` takes that table as a parameter.
- `Currency`'s `value` and `img` fields: they play no role in the computation.
- `Invoice::toHtml`'s surrounding HTML, `htmlspecialchars` and number formatting: only its change rows are modelled. Its totals are kept in cents.
- `Invoice` getters: the entity is a datatype whose fields are the getters, so there is no setter.
- `Invoice` amounts: they are reals, standing for PHP floats, and are never computed with.
- JSON decoding, `DateTime` parsing and formatting, `date('Ymd')` and `mt_rand`: they are parameters of the functions that use them.
- `TemplateEngine::render` variable values are already texts: the `json_encode` of arrays and the `__toString` of objects are not modelled, and the file system is a parameter.
- `TemplateEngine::exists` is a bare `file_exists` call and is not modelled.
- Router.MatchTokens: every character of a path other than a `{name}` group is matched as itself. `addRoute` does not escape the path, so PHP diverges from the model on paths that are not plain: `.`, `+`, `*`, `?`, `(`, `[` and `|` act as regex operators (route "/a.b" takes "/axb" in PHP, not in the model); a `#` ends the pattern's delimiter, and a group name starting with a digit or repeated in one path is a PCRE compile error, so that route never matches in PHP while the model matches it; `$` without the D modifier also matches before a final newline. Every path registered in app/routes.php is plain.
- Router handlers are identifiers: `callHandler` and the controller calls it makes are the returned `Invoke` outcome.
- `Autoloader::register` (`spl_autoload_register`) and `require_once` are the returned `Load` outcome. ROOT_PATH and `file_exists` are parameters.
- Assoc.Merge follows `array_merge` only for non-numeric keys: PHP renumbers integer-like keys, which never occur among the denomination keys.
- Aliasing of PHP arrays: every array is a value, so passing the register to `calculateChange` cannot change it.
