# trade-calc, modelled in Dafny

trade-calc is a trading journal. A FastAPI back end keeps users, trades and one chart image per trade. A Next.js front end sizes positions, places stop-loss and take-profit prices, draws the user's avatar badge and shows API errors. This project models the logic of both halves as pure Dafny functions over immutable data and proves what the code promises.

- **Chart images** (`ImageCodec`, `ImageStore`, `ChartEndpoints`). The upload gate (`compress_chart_image`) refuses oversize input before decoding and always emits WebP. The store (`DbTradeImageStore`) keeps at most one row per `(trade_id, kind)`: `save` leaves an identical image alone, overwrites a changed one in place and inserts a missing one. The two chart endpoints turn these outcomes into status codes (section 15 of RFC 9110) and response headers. The store is a map from `(tradeId, kind)` to a row. SHA-256 (section 6.2 of FIPS 180-4) and the Pillow decoder, converter, thumbnailer and encoder are function-valued parameters. Their assumed behaviour is written down as `...Contract` predicates, and only the lemmas that need an assumption require it.
- **Trades** (`TradeSchema`, `TradeCrud`). Enums are stored as their string values. A PATCH body is checked against the closed six-field `TradeUpdate` set and writes only the fields it sets. A trade is visible only to its owner. Listing is newest first and paged. The crud listing pairs each trade with a `has_chart` flag derived from the image store. `GET /trades` (`TradeListing`) projects each row onto the `TradeSummaryOut` response schema. That schema declares no `has_charts` field, so the flag never reaches the response (see Findings).
- **Users** (`Users`). These are the lookups, create, update, password change and delete of `crud/user.py`, and the `register`, `login`, `update_profile`, password-change and delete-account endpoints. The password hash is a pair of parameters (`hash`, `verify`).
- **Calculators** (`Calc`, `TradePlanner`). They cover the ordered guard chain of `validateInputs`, the pip, tick and exposure helpers, `computePositionSize` with lots rounded down to the lot step, and `computeSLTP`. Arithmetic is over `real`: idealised arithmetic, not IEEE doubles. `Math.round` is round-half-up.
- **Front-end helpers** (`UserBadge`, `ApiErrors`). `initialsFromUser`, the 32-bit rolling hash behind `colorFromString`, and `extractFastApiError` over a JSON-like `JsValue` datatype.

A thrown error or an `HTTPException` is modelled as a value: `Result`, `Option` or a response datatype. Strings are `seq<char>`; byte buffers are `seq<byte>`.

The chart ETag header carries the bare hex digest. Section 8.8.3 of RFC 9110 writes an entity tag as a quoted string. The model keeps the header exactly as the code sends it.

## Model

| member | source | states |
|---|---|---|
| ImageCodec.NormaliseMode | backend/app/services/storage/image_processing.py:43-45 | `RGB` and `L` images pass through unchanged. Under the converter contract every other mode becomes `RGB`, at the same size. |
| ImageCodec.Prepare | backend/app/services/storage/image_processing.py:43-47 | Under the converter and thumbnail contracts, the image handed to the encoder is in `RGB` or `L`. It is no larger than the original on either side, and no larger than `max_dim` on either side. |
| ImageCodec.CompressChartImage | backend/app/services/storage/image_processing.py:23-53 | Oversize input is `ImageTooLarge` if and only if `len(raw) > max_upload_bytes`. Undecodable input within the limit is `InvalidImage("Invalid image")`. Success happens exactly when the input is within the limit and decodes. On success the mime type is `image/webp` and the digest is the hash of the returned bytes. |
| ImageCodec.CompressWithDefaults | backend/app/services/storage/image_processing.py:26-35 | With the default arguments, the too-large error happens exactly when the input exceeds 10·1024·1024 bytes. |
| ImageCodec.TooLargeIgnoresDecoder | backend/app/services/storage/image_processing.py:34-35 | An oversize upload gets the same verdict whatever the image library and hash do, so no decode is attempted. |
| ImageCodec.SizeGateBoundary | backend/app/services/storage/image_processing.py:34-41 | An upload of exactly 10·1024·1024 bytes that decodes is accepted: the gate is strict. |
| ImageCodec.OutputFitsBounds | backend/app/services/storage/image_processing.py:47-53 | Under the library contracts, the stored WebP decodes to an image within `max_dim` on each side and no larger than the upload on each side. |
| ImageCodec.SmallImageKeptAsIs | backend/app/services/storage/image_processing.py:44-47 | An `RGB` or `L` image already within bounds reaches the encoder unchanged. |
| ImageCodec.DigestIsHex | backend/app/services/storage/image_processing.py:19-20 | Under the hash contract, the returned digest is 64 lower-case hex characters. |
| ImageStore.WithData | backend/app/services/storage/base.py:10-23 | A `StoredImageData` is a `StoredImage` plus its payload. Dropping the payload gives back the metadata. |
| ImageStore.MetadataSplit | backend/app/services/storage/base.py:20-23 | Splitting a `StoredImageData` into its metadata and payload and joining them again loses nothing. |
| ImageStore.Save | backend/app/services/storage/db_store.py:17-67 | The returned `trade_id` and `kind` are the arguments, and the returned digest is the hash of `data`. Exactly one key is added or kept, and every other row is untouched. The three outcomes are: an equal hash leaves the table as it was and reports the stored row's mime; a different hash overwrites the row's data, mime, hash and size; a missing row is inserted with a fresh id. |
| ImageStore.Get | backend/app/services/storage/db_store.py:69-82 | Returns nothing exactly when no row exists for the key. Otherwise it returns that row's mime, digest, size and data under the requested key. |
| ImageStore.Delete | backend/app/services/storage/db_store.py:84-91 | Removes exactly the given key and keeps every other row. Deleting an absent key changes nothing. |
| ImageStore.DeleteTradeImages | backend/app/models/trade_image.py:26-31 | The cascade: after a trade is deleted, none of its rows remain, and every other trade's rows remain as they were. |
| ImageStore.SavePreservesValid | backend/app/services/storage/db_store.py:34-67 | Every `save` branch keeps each row's size equal to its payload length and its digest equal to the hash of its payload. Row ids stay distinct and fresh. |
| ImageStore.DeletePreservesValid | backend/app/services/storage/db_store.py:84-91 | `delete` and the trade cascade keep the row invariant. |
| ImageStore.SaveThenGet | backend/app/services/storage/db_store.py:17-82 | After `save`, `get` finds the image under the same key, with the digest of the new data and a size equal to its payload. The payload is the new data unless the old row held different bytes with the same digest. |
| ImageStore.SaveIdempotent | backend/app/services/storage/db_store.py:24-32 | Saving the same bytes again, under any mime, writes nothing and returns the same metadata. |
| ImageStore.OverwriteKeepsIdentity | backend/app/services/storage/db_store.py:34-48 | An overwrite keeps the row's id and the number of rows, so no second row appears for the key. |
| ImageStore.InsertAddsOneFreshRow | backend/app/services/storage/db_store.py:50-67 | An insert adds exactly one row, and its id is new. |
| ImageStore.OtherKeysUnaffected | backend/app/services/storage/db_store.py:17-91 | `get` under any other key sees nothing of a `save` or a `delete`. |
| ImageStore.DeleteThenGet | backend/app/services/storage/db_store.py:84-91 | After `delete`, `get` on that key reports absence, and a second `delete` changes nothing. |
| ImageStore.CascadeRemovesAllImages | backend/app/models/trade_image.py:26-31 | After its trade is deleted, no image of the trade, of any kind, can be fetched. |
| TradeSchema.ParseStopUnit | backend/app/schemas/trade.py:12-14 | Accepts exactly "TICKS" and "PIPS", and the parsed value renders back as the input. |
| TradeSchema.ParseDirection | backend/app/schemas/trade.py:16-18 | Accepts exactly "LONG" and "SHORT", and the parsed value renders back as the input. |
| TradeSchema.ParseStatus | backend/app/schemas/trade.py:20-24 | Accepts exactly the four status names, and the parsed value renders back as the input. |
| TradeSchema.EnumValuesRoundTrip | backend/app/schemas/trade.py:12-24 | Every enum value parses back from its stored string. |
| TradeSchema.DefaultJournal | backend/app/schemas/trade.py:60-68 | A journal with nothing given has status PLANNED, and its note, both timestamps, realised CHF P&L and realised R-multiple are all absent. |
| TradeSchema.ParseTradeUpdate | backend/app/schemas/trade.py:77-86 | A body with any key outside the six fields is refused, naming exactly the extra keys. A field is set exactly when its key is present, null included. A note over 2000 characters never passes. A set status is the one the body named. |
| TradeSchema.ForeignFieldRejected | backend/app/schemas/trade.py:77-78 | Any key outside `TradeUpdate`'s fields makes the whole body fail, and the error names that key. |
| TradeSchema.SetFields | backend/app/crud/trade.py:84 | The fields `model_dump(exclude_unset=True)` yields are a subset of the six, and each of `note`, `status`, `opened_at`, `closed_at`, `realized_pnl_chf` and `realized_r_multiple` is present exactly when that field is set. |
| TradeSchema.ParsedSetFieldsAreBodyKeys | backend/app/crud/trade.py:84-90 | For an accepted body, the set fields are exactly the body's keys. |
| TradeCrud.CreateTrade | backend/app/crud/trade.py:16-60 | The new trade is appended with the fresh id, owner and time. Its direction, stop unit and status are stored as strings that parse back to the payload's enums. Symbol, outputs and note are copied, and id uniqueness is kept. |
| TradeCrud.FindOwned | backend/app/crud/trade.py:74-76 | The index of a row whose id and owner both match, or none exactly when no row matches both. |
| TradeCrud.GetTradeForUser | backend/app/crud/trade.py:74-76 | Returns a trade only if both id and owner match, and returns nothing exactly when no such row exists. |
| TradeCrud.OtherUsersTradeInvisible | backend/app/crud/trade.py:74-76 | Another user's trade is never returned, even when its id is known. |
| TradeCrud.ApplyUpdate | backend/app/crud/trade.py:84-90 | Each journal field is replaced when the payload sets it and kept otherwise. A set status is stored as its string. Id, owner, creation time, inputs and outputs never change, and an empty payload changes nothing. |
| TradeCrud.UpdateTradeForUser | backend/app/crud/trade.py:79-95 | A missing or foreign trade is not found and the table is unchanged. An explicit null status is an integrity error. Otherwise exactly the owned row is replaced by the patched trade. |
| TradeCrud.UpdateKeepsUniqueIds | backend/app/crud/trade.py:79-95 | An update keeps trade ids unique. |
| TradeCrud.OwnedBy | backend/app/crud/trade.py:66 | Keeps exactly the user's trades, without inventing or duplicating any. |
| TradeCrud.InsertNewestFirst | backend/app/crud/trade.py:67 | Inserting into a newest-first list keeps it newest first and adds exactly that trade. |
| TradeCrud.SortNewestFirst | backend/app/crud/trade.py:67 | The result is ordered by creation time, newest first, and is a permutation of the input. |
| TradeCrud.Page | backend/app/crud/trade.py:68-69 | Skips `offset` rows and keeps at most `limit`, in order. |
| TradeCrud.ListTradesForUser | backend/app/crud/trade.py:63-71 | Only the user's trades, newest first, and `min(limit, owned − offset)` of them. Within range, the listing is the run that starts at position `offset` of some newest-first ordering of all the user's trades, so the offset is honoured and no trade is repeated. |
| TradeCrud.FirstPageHoldsAll | backend/app/crud/trade.py:63-71 | When the user owns no more than `limit` trades, the first page holds all of them. |
| TradeCrud.NewTradeListedFirst | backend/app/crud/trade.py:16-71 | A trade created after all others is the first one listed for its owner. |
| TradeCrud.PagesConcatenate | backend/app/crud/trade.py:63-71 | Two consecutive pages together are the page of twice the size. |
| TradeCrud.HasChart | backend/app/crud/trade.py:104-109 | True exactly when the store holds an image of kind CHART for the trade. |
| TradeCrud.ListTradesWithChartFlag | backend/app/crud/trade.py:97-119 | Pairs each trade of the ordinary listing, in order, with its chart flag. |
| ChartEndpoints.NormaliseContentType | backend/app/api/v1/endpoints/trades.py:165 | A missing content type becomes the empty string; a present one has its ASCII letters lower-cased. |
| ChartEndpoints.UploadTradeChart | backend/app/api/v1/endpoints/trades.py:153-179 | 404 for a missing or foreign trade before anything else. Then 400 for a type outside png, jpeg and webp. Then 413 only for oversize input. 204 exactly when the trade is owned, the type allowed and the codec succeeds, and then the table is the store's `save` of the codec's bytes and mime under kind CHART. Every error leaves the table unchanged, and the status is always one of 204, 400, 404, 413. |
| ChartEndpoints.ForeignTradeIgnoresUpload | backend/app/api/v1/endpoints/trades.py:161-163 | For a trade the caller does not own, the answer is the same whatever the content type and bytes are. |
| ChartEndpoints.CodecErrorsMapToStatuses | backend/app/api/v1/endpoints/trades.py:171-176 | An oversize upload answers 413 "Upload too large (>10485760 bytes)". An undecodable one answers 400 "Invalid image". Neither stores anything. |
| ChartEndpoints.ChartHeaders | backend/app/api/v1/endpoints/trades.py:200-204 | ETag is the stored digest, Content-Length is the stored size in decimal, and Cache-Control is "private, max-age=0". |
| ChartEndpoints.GetTradeChart | backend/app/api/v1/endpoints/trades.py:182-205 | 404 "Trade not found" for a missing or foreign trade, 404 "No chart image" when the store has none. Otherwise 200 with the stored payload, its mime type and the chart headers. |
| ChartEndpoints.UploadKeepsAllWebp | backend/app/api/v1/endpoints/trades.py:172-178 | If every stored chart is WebP before an upload, it still is after, whatever the outcome. |
| ChartEndpoints.UploadThenDownload | backend/app/api/v1/endpoints/trades.py:153-205 | After a successful upload, the download answers 200 with a WebP body. Its ETag is the hash of the body and its Content-Length is the body's length, and the crud-level flag `TradeCrud.HasChart` holds for the trade. |
| TradeListing.Construct | backend/app/schemas/trade.py:88-98 | Building the response model from keyword arguments keeps exactly the declared fields that were passed, with their values; any other keyword is dropped. |
| TradeListing.SummaryKwargs | backend/app/api/v1/endpoints/trades.py:81-104 | `_to_summary_out` passes seven keywords, `has_charts` among them, carrying the given flag. |
| TradeListing.ToSummaryOut | backend/app/api/v1/endpoints/trades.py:81-104 | The summary holds exactly the six fields `TradeSummaryOut` declares, with the trade's id. The `has_charts` keyword it was given is not among them. |
| TradeListing.Summaries | backend/app/api/v1/endpoints/trades.py:123 | One summary per flagged row, in order, each with its row's id and none with `has_charts`. |
| TradeListing.ListMyTrades | backend/app/api/v1/endpoints/trades.py:117-123 | `GET /trades` as written: one summary per trade of the default page of the owner's listing, in order and with matching ids, and no summary carries `has_charts`. |
| TradeListing.UploadThenListedWithoutFlag | backend/app/api/v1/endpoints/trades.py:81-89 | After a successful chart upload the crud flag holds for the trade. Yet its entry in the listing, as written, has no `has_charts` key. |
| TradeListing.ToFlaggedSummary | backend/app/schemas/trade.py:88-98 | With `has_charts` declared, the summary holds the six fields plus `has_charts`, carrying the given flag. |
| TradeListing.FlaggedSummaries | backend/app/api/v1/endpoints/trades.py:123 | One flagged summary per row, in order, each with its row's id and its row's flag. |
| TradeListing.ListMyTradesFlagged | backend/app/api/v1/endpoints/trades.py:117-123 | The corrected listing: the same trades in the same order, each summary's `has_charts` true exactly when the store holds a CHART image for the trade. |
| TradeListing.FlaggedListingExtendsListing | backend/app/api/v1/endpoints/trades.py:81-123 | The corrected listing differs from the listing as written only by the flag: removing `has_charts` from each entry gives the listing as written. |
| TradeListing.FlaggedSummariesExtend | backend/app/api/v1/endpoints/trades.py:123 | Row by row, a flagged summary without its flag is the summary as written. |
| TradeListing.FlaggedSummaryExtends | backend/app/schemas/trade.py:88-98 | Declaring `has_charts` adds exactly that field and changes no other. |
| TradeListing.UploadThenListedWithChart | backend/tests/test_trade_images.py:29-40 | In the corrected listing, the entry of a trade whose chart was just uploaded has `has_charts` true, as the chart-flag test expects. |
| Users.FirstIndex | backend/app/crud/user.py:9-16 | `.first()`: the earliest matching row, or none exactly when no row matches. |
| Users.GetByEmail | backend/app/crud/user.py:9-10 | An exact-match lookup by email, returning nothing exactly when no row has that email. |
| Users.GetByUsername | backend/app/crud/user.py:12-13 | An exact-match lookup by username, returning nothing exactly when no row has that username. |
| Users.GetById | backend/app/crud/user.py:15-16 | An exact-match lookup by id, returning nothing exactly when no row has that id. |
| Users.LookupsFindUniqueRow | backend/app/crud/user.py:9-16 | In a table whose emails, usernames and ids are unique, each lookup by a user's key returns that user. |
| Users.Create | backend/app/crud/user.py:18-24 | Fails, as the unique constraints would, exactly when the email or the username is taken. Otherwise it appends a user with a fresh id and the hash of the password. |
| Users.CreatePreservesValid | backend/app/crud/user.py:18-24 | A successful create keeps ids, emails and usernames unique. |
| Users.Replace | backend/app/crud/user.py:26-34 | Writing back a user replaces exactly the row with its id. |
| Users.Remove | backend/app/crud/user.py:46-47 | Removes exactly the rows with the given id and keeps the rest distinct. |
| Users.UpdateUser | backend/app/crud/user.py:26-34 | Only the given fields change. A change that would clash with another row is an integrity error. With nothing given, the user and the table stay as they are. |
| Users.ReplacePreservesValid | backend/app/crud/user.py:26-34 | Replacing a row by a non-clashing version keeps the table valid. |
| Users.ChangePassword | backend/app/crud/user.py:36-41 | A wrong current password fails and changes nothing. Otherwise the stored hash becomes the hash of the new password. |
| Users.DeleteUser | backend/app/crud/user.py:43-47 | A wrong password fails and the user remains. Otherwise exactly that user is removed. |
| Users.DeletePreservesValid | backend/app/crud/user.py:43-47 | Deleting a user keeps the table valid. |
| Users.Register | backend/app/api/v1/endpoints/auth.py:16-27 | As written: a known email is 400 "Email already registered" and creates nothing. A new email with a taken username is an uncaught integrity error (a 500). Otherwise the user is created. |
| Users.RegisterTakenUsernameFails | backend/app/api/v1/endpoints/auth.py:18-26 | A concrete table and request on which `register` ends in the integrity error. |
| Users.RegisterChecked | backend/app/api/v1/endpoints/auth.py:16-27 | Corrected: a taken username is 400 "Username already taken". The integrity error cannot happen, and registration succeeds exactly when email and username are both free. |
| Users.RegisterCheckedAgrees | backend/app/api/v1/endpoints/auth.py:16-27 | The corrected registration answers exactly as the original wherever the original does not end in the integrity error. |
| Users.Resolve | backend/app/api/v1/endpoints/auth.py:35 | An email match wins over a username match, and without an email match the result is the username lookup. Nothing is found exactly when no row has the identifier as email or username. |
| Users.Login | backend/app/api/v1/endpoints/auth.py:30-41 | The identifier is stripped of whitespace. An unknown identifier or wrong password is 401 "Invalid credentials". On success the subject is the decimal id of a matching row whose hash verifies. For an email match, success is exactly a verifying password against that row. Without an email match, a username match succeeds exactly when the password verifies against that row, and the subject is its id. |
| Users.Authenticate | backend/app/api/v1/endpoints/auth.py:35-40 | For an already-stripped identifier: the email match is tried first, then the username. The answer is 401 "Invalid credentials" when neither matches or the password does not verify, and otherwise the matching row's decimal id. |
| Users.LoginSubjectIsUserId | backend/app/api/v1/endpoints/auth.py:40 | The token subject is all digits and reads back as the id of an existing user. |
| Users.RegisterThenLogin | backend/app/api/v1/endpoints/auth.py:16-41 | Under the hash contract, login with a freshly registered email and password yields the new user's id. |
| Users.RegisterThenLoginByUsername | backend/app/api/v1/endpoints/auth.py:16-41 | Under the hash contract, login with a freshly registered username and password yields the new user's id, provided no row has that username as its email. |
| Users.UpdateProfile | backend/app/api/v1/endpoints/profile.py:26-46 | The checks run in a fixed order, each with its own answer: a taken new username is 400 "Username already taken"; otherwise a new email without a non-empty current password is 400 with the password-required message; otherwise a taken new email is 400 "Email already registered"; otherwise the answer is 401 with the wrong-password message exactly when the password does not verify. Without an email change and with a free username there is no HTTP error. The update succeeds exactly when the username is free, an email change comes with a current password that verifies and an email nobody holds, and `update_user` then succeeds. Every error leaves the table unchanged, and success writes exactly the `update_user` result. |
| Users.EmailChangeNeedsPasswordFirst | backend/app/api/v1/endpoints/profile.py:37-42 | An email change with a missing or empty password is refused with the password message, even when the email is taken. |
| Users.UpdateProfileNeverViolatesConstraints | backend/app/api/v1/endpoints/profile.py:32-46 | On a valid table the profile checks exclude every unique-constraint violation, and the table stays valid. |
| Users.UpdateProfilePassword | backend/app/api/v1/endpoints/profile.py:49-64 | 401 "Invalid current password" exactly when the password does not verify, with the table unchanged. Otherwise 204 after `change_password`. |
| Users.DeleteProfile | backend/app/api/v1/endpoints/profile.py:67-77 | 401 "Invalid current password" exactly when the password does not verify, with the table unchanged. Otherwise 204 after `delete_user`. |
| Users.PasswordChangeThenLogin | backend/app/api/v1/endpoints/profile.py:49-64 | Under the hash contract, after a password change the new password logs in and the old one gets 401. |
| Users.DeleteThenLoginFails | backend/app/api/v1/endpoints/profile.py:67-77 | After the account is deleted, no login by any identifier and password yields its subject. |
| Calc.FirstFailing | frontend/lib/calc/validate.ts:13-18 | The message of the first guard that fails, or none exactly when every guard holds. |
| Calc.ValidateInputs | frontend/lib/calc/validate.ts:3-19 | Passes exactly when every input condition holds. A non-CHF account always fails with the CHF message, and every failure is one of the six messages. |
| Calc.ValidateIsFirstFailingGuard | frontend/lib/calc/validate.ts:13-18 | The message thrown is that of the first failing guard, in the source's order. |
| Calc.FirstFailingStep | frontend/lib/calc/validate.ts:13-18 | The first failure from position i is guard i's message when it fails, else the first failure after it. |
| Calc.RiskPctBoundary | frontend/lib/calc/validate.ts:15 | A risk of 0 % fails with the risk message, and a risk of exactly 5 % passes. |
| Calc.RoundDownToStep | frontend/lib/calc/index.ts:6-9 | The result is a multiple of the step, at most the value, and less than one step below it. |
| Calc.RoundDownIsLargest | frontend/lib/calc/index.ts:6-9 | Every multiple of the step that does not exceed the value is at most the rounded result. |
| Calc.RoundDownMonotone | frontend/lib/calc/index.ts:6-9 | A larger value never rounds to fewer steps. |
| Calc.Round | frontend/lib/calc/fx.ts:25 | `Math.round`: the integer within half a unit of `x`, halves rounding up. |
| Calc.RoundIsNearest | frontend/lib/calc/fx.ts:25 | Any integer in the half-open half-unit window around `x` is its rounding. |
| Calc.PipSize | frontend/lib/calc/fx.ts:5-7 | 0.01 exactly for symbols ending in JPY, 0.0001 otherwise. |
| Calc.FxValuePerPipPerLotChf | frontend/lib/calc/fx.ts:9-22 | 100000·pip for CHF-quoted symbols, 100000·pip·rate otherwise; positive for a positive rate. |
| Calc.ChfQuotedIgnoresRate | frontend/lib/calc/fx.ts:15-17 | For a CHF-quoted symbol the pip value does not depend on the rate. |
| Calc.FxExposureUnits | frontend/lib/calc/fx.ts:24-26 | The exposure is `lots · 100000` rounded to the nearest unit. |
| Calc.GoldValuePerTickPerLotChf | frontend/lib/calc/gold.ts:1-11 | A non-positive contract size fails first, then a non-positive tick size. Otherwise the value is contract·tick·rate, positive for a positive rate. |
| Calc.GoldExposureOz | frontend/lib/calc/gold.ts:13-15 | The exposure is `lots · contractSize` rounded to the nearest ounce. |
| Calc.UnitValue | frontend/lib/calc/index.ts:21-37 | Gold uses the tick value and its errors; every other symbol uses the pip value. |
| Calc.LotsFor | frontend/lib/calc/index.ts:39-41 | Lots are a multiple of the lot step whose stop value fits the risk budget, while one more step would not. |
| Calc.SizePosition | frontend/lib/calc/index.ts:14-61 | Risk money is balance·risk/100, and the stop value is distance·unit value. The sizing succeeds exactly when the rounded lot count is positive; then lots are the budget-fitting multiple, and otherwise the result is "Lot size rounded down to 0.". Labels are oz/ticks for XAUUSD and units/pips otherwise, and exposure is computed from the final lots. |
| Calc.ComputePositionSize | frontend/lib/calc/index.ts:11-62 | Validation failures come first. A gold-parameter failure comes next. Every success is on valid inputs and equals the sizing of the validated inputs. Conversely, valid inputs with a positive unit value always give exactly that sizing, so they succeed whenever the rounded lot count is positive. |
| Calc.LotsWithinBudget | frontend/lib/calc/index.ts:39-41 | Lots within one step below `risk / stopValue` cost at most the risk, and one more step would cost more. |
| Calc.LotsForMonotone | frontend/lib/calc/index.ts:39-41 | More risk money never buys fewer lots. |
| Calc.LotsForBelowOneStep | frontend/lib/calc/index.ts:40-45 | A budget below one lot step's stop value rounds to zero lots, which is the zero-lot error. |
| TradePlanner.PriceStep | frontend/lib/tradePlanner/index.ts:32-41 | 0.01 for XAUUSD and the pip size otherwise; always positive. |
| TradePlanner.ComputeSlTp | frontend/lib/tradePlanner/index.ts:24-53 | The guards for entry, stop and R multiple run in order. On success the risk distance is stop·step and the reward distance is risk·R, both positive. A long trade has `sl < entry < tp` and a short one `tp < entry < sl`, with the exact distances. |
| TradePlanner.DirectionsMirror | frontend/lib/tradePlanner/index.ts:46-50 | The long and short plans for the same inputs mirror each other around the entry price. |
| UserBadge.LeadingUpper | frontend/lib/auth/index.ts:65-66 | The first two characters, or the only one, upper-cased. |
| UserBadge.LocalPart | frontend/lib/auth/index.ts:68 | The first piece of `email.split("@")`, a prefix of the email without "@". |
| UserBadge.InitialsFromUser | frontend/lib/auth/index.ts:60-73 | One or two characters, never lower-case ASCII. They come from the trimmed username when it is non-blank, else from the email's local part, else "U". |
| UserBadge.UsernameWins | frontend/lib/auth/index.ts:64-66 | A username with any non-space character decides the initials whatever the email. |
| UserBadge.DomainIgnored | frontend/lib/auth/index.ts:68-70 | Only the part of the email before the first "@" matters. |
| UserBadge.Utf16Units | frontend/lib/auth/index.ts:77-78 | `charCodeAt` sees UTF-16 code units: at least one and at most two per character, each below 65536, and exactly the characters for a BMP-only string. |
| UserBadge.HashUnits | frontend/lib/auth/index.ts:76-79 | The hash stays in [0, 2^32) after every step. |
| UserBadge.HashIsPolynomial | frontend/lib/auth/index.ts:76-79 | The hash with its reductions at every step equals the base-31 polynomial of the code units reduced once modulo 2^32. |
| UserBadge.ColorFromString | frontend/lib/auth/index.ts:75-82 | The loop computes the polynomial hash modulo 2^32, and the colour is `hsl(<hash mod 360> 60% 45%)`; the empty string gives hue 0. |
| ApiErrors.GetProp | frontend/lib/trades/index.ts:92-102 | A property read: the stored value, or undefined for a missing name or a non-object. |
| ApiErrors.JsToString | frontend/lib/trades/index.ts:115 | `String(value)`: a string is itself and an empty array is "". |
| ApiErrors.LocText | frontend/lib/trades/index.ts:113-116 | Anything other than an array is "validation". An empty array gives "", a one-element array that element's text, and when no element's text holds a ".", splitting the location on "." gives back the elements' texts in order. |
| ApiErrors.FormatItem | frontend/lib/trades/index.ts:110-121 | A non-object item is "Invalid value". Otherwise the result is the location, ": ", and the message, or "Invalid value" when the message is not a string. |
| ApiErrors.Detail | frontend/lib/trades/index.ts:87-102 | Undefined when the error, its response or its data is not an object (arrays count as objects); otherwise the `detail` property of the data. |
| ApiErrors.ExtractFastApiError | frontend/lib/trades/index.ts:87-126 | A non-object error or any other detail shape is "Request failed", and a string detail is shown verbatim. An array detail is its rendered items joined with newlines, so an empty array is "", and when no rendered item holds a newline the message splits back, line by line, into those items. |
| ApiErrors.HttpExceptionDetailShown | frontend/lib/trades/index.ts:104-106 | The detail of a back-end `HTTPException` reaches the user unchanged. |
| ApiErrors.ValidationItemFormat | frontend/lib/trades/index.ts:113-120 | A FastAPI validation item with a path of names and a message renders as `a.b.c: message`. |

## Left out

- SHA-256, Pillow's decoder, converter, thumbnailer and WebP encoder, and bcrypt are foreign libraries. They are parameters; what the proofs assume of them is stated as `...Contract` predicates. bcrypt's random salt and its 72-byte password truncation are not modelled.
- SQLAlchemy sessions, commits, refreshes, timestamps and UUID generation are left out. Tables are immutable maps and sequences, fresh ids are an abstract supply, and creation times are parameters.
- The concurrent `save` race (two requests inserting the same key) is not modelled, because the model is sequential. The unique constraint on `(trade_id, kind)` is an invariant of the map.
- The `TradeImageStore` protocol is represented by its database implementation only.
- FastAPI routing, dependency injection, `UploadFile` reading, CORS, application start-up and the JWT encoding of the access token are left out. Login returns the token's subject.
- The debug assertion and password printing in `backend/app/core/security.py` and `backend/app/crud/user.py` are scaffolding, not behaviour.
- Migrations, database bootstrap and settings are not part of this model. Neither is the stale duplicate `backend/app/api/v1/endpoints/trade.py`.
- `UserUpdate`, `PasswordChange` and `DeleteAccount` are not defined in the repository's user schemas. The profile payloads are modelled as optional fields, and `EmailStr` normalisation is not modelled.
- Pydantic's lax coercion (numbers from strings, datetimes from several formats) is left out. A body value must already have the field's type, and otherwise it is a type error.
- The field bounds of a creation payload (a symbol of 1 to 32 characters, a note of at most 2000) are Pydantic 422 checks that run before `create_trade`. `TradeCrud.CreateTrade` takes an already validated payload.
- Pydantic reports every validation error at once; the model reports the first, or the full set of extra keys.
- That `ImageTooLargeError` and `InvalidImageError` subclass `ValueError` is a Python class hierarchy. The model keeps the two kinds as distinct constructors.
- React and Next.js pages and components, `localStorage` and the axios client are left out.
- IEEE-754 arithmetic is not modelled. The calculators use exact reals, so NaN in the `!(x > 0)` guards, the rounding of `1 / step` and display formatting are left out.
- `Calc.ComputePositionSize`: that more balance never yields fewer lots is proved for the lot computation (`Calc.LotsForMonotone`) but not restated end to end through validation and sizing.
- `ImageCodec.CompressChartImage`: Pillow's mode conversion, thumbnail and WebP save run outside the `try` that guards decoding, so a failure there ends the request with a server error. The model makes these steps total, so that error path is not modelled. Its "success exactly when within the limit and decodes" and the upload endpoint's "status always one of 204, 400, 404, 413" hold only under that assumption.
- `ChartEndpoints.NormaliseContentType`: lower-casing is ASCII-only, where Python's `str.lower` is Unicode-aware. Whether the result is one of the three allowed ASCII types (`image/png`, `image/jpeg`, `image/webp`) is unaffected, because no non-ASCII character can lower-case into one of them. The Kelvin sign lower-cases to "k", which none of them contains, and "İ" lower-cases to "i" followed by a combining dot, which none of them contains either.
- `TradeListing.ListMyTrades`: a summary keeps its field values as typed values (`SummaryValue`). Their JSON text, such as ISO timestamps and float formatting, is not modelled, because only which keys a listed trade carries matters to the flag.
- `ApiErrors.JsToString`: JavaScript numbers are integers in the model, and `String()` of fractional, infinite or NaN numbers is not modelled.
- `UserBadge.LeadingUpper` and `UserBadge.InitialsFromUser`: upper-casing is ASCII-only. Slicing is by character, where JavaScript slices UTF-16 code units, so initials from characters outside the Basic Multilingual Plane are not modelled.

## Findings

| source | as written | input that shows it | evidently intended | confidence | as-written member | corrected member |
|---|---|---|---|---|---|---|
| backend/app/api/v1/endpoints/auth.py:18-26 | `register` checks only the email before creating the user; the username's unique constraint is left to the database, and the resulting integrity error is not caught | a table holding `a@example.com` / `dimi`, then registering `b@example.com` / `dimi`: the insert violates the unique username and the request ends in a server error | a taken username refused with 400 "Username already taken", as `update_profile` does | not executed | Users.RegisterTakenUsernameFails | Users.RegisterChecked |
| backend/app/schemas/trade.py:88-98 | `_to_summary_out` (trades.py:81-89) passes `has_charts` to `TradeSummaryOut`, which declares no such field. The Pydantic default ignores extra keywords, so `GET /trades` serialises no `has_charts` | a user with one trade uploads a chart for it and lists trades: the trade's entry has no `has_charts` key, so reading `found["has_charts"]` as test_trade_images.py:27 and :40 do raises `KeyError` | `TradeSummaryOut` declares `has_charts: bool`, and the listing reports whether each trade has a chart | not executed; high | TradeListing.UploadThenListedWithoutFlag | TradeListing.ListMyTradesFlagged |
