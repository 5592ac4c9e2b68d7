# Verification of the shop's transactional core

A Dafny model of six stateful parts of the shop back end, with proofs of what they keep.  Database rows
are maps, sequences or class fields; a transaction is a step that commits whole or leaves no trace; row
locks and in-flight transactions are explicit where transactions interleave.

- **Orders, payments, stock** (`OrderRows`, `Payments`, `OrderTransactions`, `OrderStore`,
  `OrderProtocol`, `OrderTheorems`, `OrderHistories`, `WebhookConfluence`,
  `OrderEffects`, `OrderReachability`).  `OrderStore` holds the statements of each transaction,
  `OrderTransactions` says what a transaction does as a function of the tables,
  `OrderProtocol` splits the transactions at their locks and lets any number of them interleave, and
  `OrderTheorems` speaks about every run; `OrderHistories` says exactly when a cancelled order is PAID and
  when stock can come back.  `OrderEffects` says field by field what each transaction does and when
  it refuses, `OrderReachability` that the interleavings leave none out.
- **Sessions and refresh tokens** (`SessionRows`, `SessionProtocol`, `SessionStore`, `SessionEffects`):
  rotation with reuse detection as in section 4.14.2 of RFC 9700, again as statements under row locks.
- **Categories** (`Paths`, `Categories`, `CategoryStore`, `CategoryTree`): materialised id and slug
  paths, prefix rewriting on rename, the slug search, and the two trees built from flat rows.
- **Product listing** (`Pagination`): keyset pagination over the joined rows.
- **Product update** (`ProductImages`, `ImageFiles`, `ProductVariants`, `VariantRuns`, `VariantStore`,
  `VariantEffects`): reordering images under a unique index, matching uploads, reconciling variants, the option pivot.
- **Variant images** (`VariantImages`, `ImageCache`): grouping, best match, read-through cache.

`Wrappers`, `Sorting` and `FiniteSets` are helpers.  `dafny verify dfyconfig.toml` checks everything.

## What turned out false of the code

The code is modelled as it is; each of these is stated by the lemmas named, with the exact condition where
there is one.

- A user's cancellation (`src/modules/user/order/order.user.service.ts:52-76`) does not give stock back,
  so "stock plus orders not cancelled is constant" holds iff no order cancelled by its user asks for the
  variant (`OrderTheorems.StockConservedIff`, `OrderTheorems.UserCancellationLosesStock`).
- A late settlement pays an order the worker has cancelled
  (`OrderTheorems.LateSettlementPaysCancelledOrder`).  A cancelled order is not PAID iff no paying
  notification of it was committed while it was cancelled (`OrderHistories.CancelledExcludesPaidIff`).
- An `expire` notification leaves its order PENDING, and its stock is not released in any continuation
  (`OrderHistories.ExpireNotificationHoldsStock`).  Stock that is not back can come back iff its order is
  still PENDING and UNPAID (`OrderHistories.StockCanComeBackIff`).
- The comment above the auto-complete select says "with lock", but the select takes none; the lifecycle
  invariant holds all the same.
- The cursor of the `created_at` sort is cut to the millisecond while the column holds microseconds.
  Newest first can lose rows, oldest first can repeat them for ever
  (`Pagination.NewestFirstLosesARow`, `Pagination.OldestFirstNeverEnds`); reading ends with exactly the
  listing iff every page end is exact (`Pagination.ReadingEndsWithListingIff`).
- Image positions have no upper bound in the request schema, so the offset of 100 is not always safe
  (`ProductImages.OffsetIsSafeIff`, `ProductImages.AHundredApartIsStuck`); a row named twice counts
  twice and keeps its last position (`ProductImages.EveryEntryShownIff`, `ProductImages.RowNamedTwice`).
- Pivot rows are looked up by id or client id in one map.  A client id that spells another variant's id
  sends two variants' rows to one of them (`ProductVariants.PivotOnceIff`,
  `VariantRuns.ClientIdCollides`).
- A cache fill that overtakes an update's invalidation stays stale until it expires
  (`ImageCache.LateFillIsStaleIff`, `ImageCache.LateStoreIsRightIff`).
- A root category with an empty slug blocks every later creation, because rows are first inserted with an
  empty path (`CategoryStore.CreateSucceedsIff`, `CategoryStore.EmptySlugBlocksCreation`).

## Model

| member | source | states |
|---|---|---|
| `OrderRows.ReserveIsExact` | src/modules/product/product-stock.repo.ts:6-25 | The guarded decrements all succeed exactly when, for every variant, the total asked for (repeated items added up) is at most its stock; then each stock falls by exactly that total. |
| `OrderRows.ReleaseAddsTotals` | src/modules/internal/workers/worker.repo.ts:29-43 | The grouped release raises each variant by the sum of all its items in the batch and touches no other variant. |
| `OrderRows.GroupedReleaseIsPerItemLoop` | src/modules/internal/workers/worker.repo.ts:29-43 | The grouped SUM update equals putting the items of the batch back one after the other. |
| `OrderRows.ExpiryUndoesReserve` | src/modules/internal/workers/worker.repo.ts:29-57 | Releasing a batch that holds a new order alone restores the stock from before its reservation exactly. |
| `OrderRows.UngroupedUpdateAddsTotals` | src/modules/product/product-metrics.repo.ts:4-15 | With one row per variant, any outcome the ungrouped UPDATE..FROM may have adds exactly the ordered quantities. |
| `OrderRows.UngroupedUpdateIsRightIff` | src/modules/product/product-metrics.repo.ts:4-15 | Every outcome the ungrouped update may have adds the right quantities if and only if no variant of the catalogue has two rows in the order. |
| `Payments.RecordKeepsMaximum` | src/modules/payment/payment.service.ts:30-52 | Recording a notification leaves as stored rank of its transaction the maximum of the old and the incoming rank, and leaves every other transaction alone. |
| `OrderStore.ExpiryRowsAreTheBatch` | src/modules/internal/workers/worker.repo.ts:7-19 | Filter, order by expiry time and id, skip locked, limit 500: the rows read are a batch that contains no locked order and never passes over an order that comes before one it takes. |
| `OrderStore.Store.ReduceStock` | src/modules/product/product-stock.repo.ts:6-25 | The loop succeeds iff the totals fit, and then every stock is lower by the total quantity of its variant. |
| `OrderStore.Store.PlaceOrder` | src/modules/user/checkout/checkout.user.service.ts:257-277 | Placing an order inserts it and takes its stock together, or leaves both as they were. |
| `OrderStore.Store.ExpireOrders` | src/modules/internal/workers/worker.repo.ts:5-62 | The three statements select a due batch, put its totals back and cancel exactly those orders. |
| `OrderStore.Store.IncrementVariantSold` | src/modules/product/product-metrics.repo.ts:4-15 | Each matched counter grows by one matching row, whichever the database picks; with one row per variant by the total. |
| `OrderStore.Store.HandleWebhook` | src/modules/payment/payment.service.ts:18-97 | Whatever the branch, payment row, order row and counters end as one notification applied to the old tables; errors leave no trace. |
| `OrderStore.Store.MarkAsShipped` | src/modules/admin/order/order.service.ts:44-83 | Ships a PAID, unfinished, unshipped order and moves it out of PENDING, or changes nothing; every row keeps its status and shipment in step and no other row changes. |
| `OrderStore.Store.MarkAsDelivered` | src/modules/admin/order/order.service.ts:85-114 | Delivers a shipped, unfinished order and completes it, or changes nothing; every row keeps its status and shipment in step and no other row changes. |
| `OrderStore.Store.CancelOrder` | src/modules/user/order/order.user.service.ts:52-76 | The caller's own order, UNPAID and not completed, becomes CANCELLED and FAILED, or nothing changes; the stock is not part of the change, and every row keeps its status and shipment in step. |
| `OrderStore.Store.CompleteDelivered` | src/workers/jobs/auto-complete-delivered-orders.job.ts:38-65 | The two guarded updates deliver what is still shipped and complete what is not final. |
| `OrderProtocol.SkipLockedIsFree` | src/modules/internal/workers/worker.repo.ts:10-19 | A batch read with SKIP LOCKED shares no order with any open transaction. |
| `OrderProtocol.StatementKeepsInvariant` | src/modules/payment/payment.service.ts:20-81 | Every statement that locks or reads keeps the invariant: what a transaction read stays true until it commits, and no two transactions lock a common row. |
| `OrderProtocol.CommitKeepsInvariant` | src/modules/internal/workers/worker.repo.ts:29-57 | Every commit keeps stock accounting, sold ledger, lifecycle and the other transactions' readings. |
| `OrderProtocol.StepKeepsInvariant` | src/modules/order/order.repo.ts:5-188 | Any step of any transaction, in any interleaving, keeps the whole invariant. |
| `OrderProtocol.AutoCompleteCommitKeepsInvariant` | src/workers/jobs/auto-complete-delivered-orders.job.ts:12-68 | The auto-complete job keeps the invariant although other transactions may commit between its unlocked select and its updates. |
| `OrderTheorems.StockIsAccountedFor` | src/modules/internal/workers/worker.repo.ts:5-62 | In every reachable state stock is never negative, and shelf plus orders not cancelled plus the orders their users cancelled in the run is the initial stock. |
| `OrderTheorems.StockConservedIff` | src/modules/user/order/order.user.service.ts:52-76 | Shelf plus orders not cancelled equals the initial stock if and only if no order that its user cancelled in the run asks for the variant. |
| `OrderTheorems.StockConservation` | src/modules/internal/workers/worker.repo.ts:5-62 | As long as no user cancels, every interleaving of placements, notifications, shipping, delivery, auto-completion and expiry workers conserves each variant's stock. |
| `OrderTheorems.UnreleasedAreUserCancelled` | src/modules/user/order/order.user.service.ts:52-76 | Over any run, the cancelled orders whose stock is not back are those before it and those their users cancelled in it. |
| `OrderTheorems.UserCancellationLosesStock` | src/modules/order/order.repo.ts:81-93 | A concrete run in which a user's cancellation leaves a piece neither on the shelf nor in a live order. |
| `OrderTheorems.ExpiryIsExclusive` | src/modules/internal/workers/worker.repo.ts:10-57 | Two open expiry transactions never hold a common order. |
| `OrderTheorems.ReleasedAtMostOnce` | src/modules/internal/workers/worker.repo.ts:29-57 | In any run the stock of an order is given back at most once. |
| `OrderTheorems.PaidStaysPaid` | src/modules/payment/payment.service.ts:58-81 | A PAID order stays PAID through every later interleaving. |
| `OrderTheorems.SoldLedger` | src/modules/payment/payment.service.ts:56-67 | In every reachable state a sold counter is its initial value plus the quantities of all PAID orders. |
| `OrderTheorems.LifecycleHolds` | src/modules/admin/order/order.service.ts:44-114 | PROCESSING iff SHIPPED, COMPLETED iff DELIVERED, a shipped order is PAID, a CANCELLED order's shipment is PENDING. |
| `OrderTheorems.LateSettlementPaysCancelledOrder` | src/modules/payment/payment.service.ts:59-66 | A settlement can always pay a cancelled, unlocked order: it ends CANCELLED and PAID, its pieces are counted as sold and its stock does not change. |
| `OrderHistories.CancelledAndPaidIff` | src/modules/payment/payment.service.ts:58-81 | Over any run an order ends cancelled and PAID exactly when it was so before, or a paying notification of it was committed while it was cancelled. |
| `OrderHistories.CancelledExcludesPaidIff` | src/modules/payment/payment.service.ts:58-81 | In a reachable state a cancelled order is not PAID exactly when no paying notification of it was committed while it was cancelled. |
| `OrderHistories.SettledPaymentHoldsStock` | src/modules/internal/workers/worker.repo.ts:12-15 | An order that is not cancelled and no longer UNPAID is, in every continuation, never cancelled, never released and never UNPAID again. |
| `OrderHistories.ExpireNotificationHoldsStock` | src/modules/payment/payment.service.ts:85-88 | An expire notification of an order awaiting payment leaves it PENDING with its stock held, then and in every continuation. |
| `OrderHistories.StockCanComeBackIff` | src/modules/internal/workers/worker.repo.ts:10-57 | Some continuation gives the stock of an order back exactly when it is back already or the order is PENDING and UNPAID. |
| `OrderTheorems.CommitIsSerial` | src/modules/payment/payment.service.ts:18-97 | Each commit does to the tables what its transaction would do running alone at that moment. |
| `OrderTheorems.RunsAreSerializable` | src/modules/internal/workers/worker.repo.ts:5-62 | Every interleaving ends as running the committed transactions whole, in commit order, none of them failing; a batch read earlier must still qualify when its transaction runs alone. |
| `WebhookConfluence.HighestRankIsMaximum` | src/modules/payment/payment.constants.ts:1-16 | The rank left by a list of notifications is at least every delivered rank and is one of them, or the rank stored before. |
| `WebhookConfluence.DeliverAllOutcome` | src/modules/payment/payment.service.ts:30-81 | What any finite list of notifications of one order leaves: PAID iff it was or one of them pays, sold counted once, the highest rank per transaction. |
| `WebhookConfluence.WebhooksConfluent` | src/modules/payment/payment.service.ts:30-81 | Two lists with the same members, in any order and with any repetition, leave the same PAID-or-not, sold counters and ranks. |
| `WebhookConfluence.TiesDependOnArrival` | src/modules/payment/payment.constants.ts:8-12 | Confluence goes no further: of two final notifications of equal rank the last one decides the stored status. |
| `OrderEffects.PlaceEffect` | src/modules/user/checkout/checkout.user.service.ts:257-277 | Placing succeeds iff every total fits; it appends one PENDING, UNPAID order with the given items and takes exactly its totals. |
| `OrderEffects.ExpireEffect` | src/modules/internal/workers/worker.repo.ts:29-57 | Every order of a batch ends CANCELLED with payment EXPIRED and keeps the rest, each variant gets its total back, every other row stays. |
| `OrderEffects.NotifyRefusals` | src/modules/payment/payment.service.ts:20-45 | A notification is refused exactly for an unknown order, or for an unknown status that would have to be stored. |
| `OrderEffects.NotifyPays` | src/modules/payment/payment.service.ts:56-96 | Afterwards the order is PAID iff it was, or the status is settlement, or it is capture with fraud status accept; else expire gives EXPIRED and cancel, deny and failure give FAILED on an order that is not PAID, CANCELLED or COMPLETED, and everything else leaves the payment. |
| `OrderEffects.NotifyCounts` | src/modules/payment/payment.service.ts:56-67 | The sold counters grow by the order's totals exactly on the notification that makes it PAID. |
| `OrderEffects.NotifyStores` | src/modules/payment/payment.service.ts:30-54 | The first notification of a transaction is stored as it is; a later one replaces status and fraud unless it repeats the status or ranks lower; other rows stay. |
| `OrderEffects.RankOrder` | src/modules/payment/payment.constants.ts:1-16 | The ranks order the gateway's statuses, with ties exactly among the four failures and the two refunds, and an unknown text lowest. |
| `OrderEffects.ShipEffect` | src/modules/admin/order/order.service.ts:44-83 | Shipping succeeds iff the order is PAID, not final and its shipment PENDING; the row afterwards, field by field. |
| `OrderEffects.DeliverEffect` | src/modules/admin/order/order.service.ts:85-114 | Delivering succeeds iff the shipment is SHIPPED and the order neither final nor failed; the row afterwards, field by field. |
| `OrderEffects.CancelEffect` | src/modules/user/order/order.user.service.ts:52-76 | A cancellation succeeds iff the order is UNPAID and not final; it ends CANCELLED and FAILED and nothing else changes, the stock included. |
| `OrderEffects.AutoCompleteEffect` | src/workers/jobs/auto-complete-delivered-orders.job.ts:38-65 | Of the selected orders those still SHIPPED are delivered and those not final are completed; every other field and row stays. |
| `OrderStore.Store.SelectOverdue` | src/workers/jobs/auto-complete-delivered-orders.job.ts:13-30 | PAID orders shipped over fourteen days ago and not final, at most 200, none left out that was shipped before one taken. |
| `OrderReachability.EveryTransactionRuns` | src/modules/order/order.repo.ts:5-188 | From any state with nothing open, every transaction that succeeds alone has a run that commits exactly that: the transition system leaves no transaction out. |
| `SessionRows.RotateIsConsistent` | src/modules/auth/auth.service.ts:385-390 | Rotating an unrevoked token keeps every session's tokens one chain linked through replaced_by_id. |
| `SessionRows.RevokingIsConsistent` | src/modules/auth/auth.repo.ts:345-379 | Revoking any sessions and tokens keeps every chain. |
| `SessionRows.IssueIsConsistent` | src/modules/auth/auth.service.ts:810-826 | A new session starts a chain of its own and disturbs no other. |
| `SessionRows.LiveTokenIsNewest` | src/modules/auth/auth.service.ts:385-388 | An unrevoked token is the newest of its session and the only unrevoked one. |
| `SessionRows.LinksFormAChain` | src/modules/auth/auth.service.ts:828-843 | No two tokens replace the same token, and a replaced token is older, revoked and of the same session. |
| `SessionProtocol.StepKeepsInvariant` | src/modules/auth/auth.service.ts:343-429 | Every statement of refresh, logout, login, reset and administrative revocation, interleaved freely, keeps locks exclusive and readings true. |
| `SessionProtocol.SingleChainRotation` | src/modules/auth/auth.service.ts:385-388 | In every reachable state each session has one chain of tokens, at most the newest of them unrevoked, and no token was redeemed twice. |
| `SessionProtocol.RevokedSessionIsDead` | src/modules/auth/auth.service.ts:365-367 | Once a session is revoked no continuation redeems a token of it. |
| `SessionProtocol.ReuseKillsSession` | src/modules/auth/auth.service.ts:353-359 | The revocation after reuse commits: session and all its tokens are revoked, everything of other sessions is unchanged, and no later refresh on the session succeeds. |
| `SessionProtocol.ResetBeatsRefresh` | src/modules/auth/auth.service.ts:538-540 | Split into statements and row locks: from a reset's commit on, no token of any session that existed at its session update is ever redeemed, whatever ran between. |
| `SessionProtocol.RotationIsSerial` | src/modules/auth/auth.service.ts:343-397 | However refreshes interleave, a rotation commits what a refresh running alone at that moment would. |
| `SessionStore.Store.IssueAuthTokens` | src/modules/auth/auth.service.ts:810-843 | A new session with its first token, and nothing else. |
| `SessionStore.Store.RevokeSessionWithTokens` | src/modules/auth/auth.repo.ts:345-367 | Revokes one session and all its unrevoked tokens. |
| `SessionStore.Store.Refresh` | src/modules/auth/auth.service.ts:343-413 | Every answer with its effect; on reuse the session and all its tokens are revoked although the caller gets an error. |
| `SessionStore.Store.Logout` | src/modules/auth/auth.service.ts:415-429 | Revokes the presented token only; an unknown token is ignored. |
| `SessionStore.Store.CloseUserSessions` | src/modules/auth/auth.service.ts:578-588 | All of the user's sessions and tokens are revoked, then perhaps one new session is opened. |
| `SessionStore.SpentTokenIsReuse` | src/modules/auth/auth.service.ts:353-359 | After a rotation, presenting the old token again is answered as reuse and then the new token is refused too. |
| `SessionEffects.RefreshAnswers` | src/modules/auth/auth.service.ts:343-413 | Each answer of a refresh has its own exact condition on the old rows: a rotation iff token and session are known and unrevoked, the token is not past its time and the user is found. |
| `SessionEffects.RefreshRefusalsChangeNothing` | src/modules/auth/auth.service.ts:349-367 | An unknown or expired token and a revoked session leave every table as it was. |
| `SessionEffects.RotationWrites` | src/modules/auth/auth.service.ts:828-843 | A rotation revokes the presented token and adds one successor of the same user and session, linked to it, with seven days to live; nothing else changes. |
| `SessionEffects.KillWrites` | src/modules/auth/auth.service.ts:353-383 | Reuse and a missing user revoke exactly the session and its tokens. |
| `SessionEffects.IssueWrites` | src/modules/auth/auth.service.ts:810-826 | A login adds one open session and one token with seven days to live, and changes no other row. |
| `SessionEffects.ClosingWrites` | src/modules/auth/auth.service.ts:538-540 | The end of a reset revokes exactly the sessions and tokens of the user. |
| `SessionEffects.ResetRevokesTokens` | src/modules/auth/auth.service.ts:538-540 | Every token the user had when a reset's token update ran is revoked once it commits, whatever ran in between. |
| `SessionEffects.RotationRuns` | src/modules/auth/auth.service.ts:343-413 | A refresh that rotates alone has a run of the interleaved statements that commits just that. |
| `SessionEffects.SuperRevokeWrites` | src/modules/super/user/user.super.repo.ts:122-134 | The administrator's revocation revokes exactly the tokens of the user and no session. |
| `SessionStore.Store.RevokeUserSessions` | src/modules/super/user/user.super.repo.ts:122-134 | Revokes the user's unrevoked tokens, leaves sessions and other users alone, and answers their number. |
| `Paths.SplitJoin` | src/modules/admin/category/category.repo.ts:382-398 | Splitting a path undoes joining its components. |
| `Paths.JoinInjective` | src/modules/admin/category/category.repo.ts:142-170 | Different component lists give different paths. |
| `Paths.BelowIffPrefix` | src/modules/admin/category/category.repo.ts:64-74 | One path followed by a slash starts another exactly when its components are a proper prefix of the other's. |
| `Paths.LikeLiteralPrefix` | src/modules/admin/category/category.repo.ts:64-74 | LIKE with a literal and % matches exactly the texts that start with the literal. |
| `Paths.DecimalInjective` | src/modules/admin/category/category.slug.ts:43-44 | Different numbers have different decimal texts. |
| `Paths.DecimalReads` | src/modules/admin/category/category.slug.ts:43-44 | A decimal text reads back as its number and has no leading zero. |
| `Categories.PathsAreUnique` | src/modules/admin/category/category.repo.ts:137-185 | Under the path invariant no two categories share an id path or a slug path. |
| `Categories.LikeFindsDescendants` | src/modules/admin/category/category.repo.ts:273-291 | The rows the pattern path/% matches are exactly the strict descendants, for slug paths and for id paths. |
| `Categories.RenameIsRecompute` | src/modules/admin/category/category.repo.ts:188-293 | Rewriting the subtree by string prefix gives the same table as recomputing every path from the parents. |
| `Categories.RenameTouchesExactlyTheSubtree` | src/modules/admin/category/category.repo.ts:271-292 | A rename to a new slug changes the paths of the category and its descendants and no other row. |
| `Categories.RenameKeepsSound` | src/modules/admin/category/category.repo.ts:188-293 | A rename to a slug no sibling uses keeps the path invariant. |
| `Categories.RewriteNeverCollides` | src/modules/admin/category/category.repo.ts:271-292 | While the subtree is rewritten row by row no new path meets an old or a new path of another row. |
| `CategoryStore.CreateSucceedsIff` | src/modules/admin/category/category.repo.ts:108-186 | Creation succeeds exactly under no parent or an existing one whose depth is below three, with a slug free among the siblings and no empty path stored; then the invariant holds. |
| `CategoryStore.EmptySlugBlocksCreation` | src/modules/admin/category/category.repo.ts:116-135 | The first category may have the empty slug, and then every later creation fails. |
| `CategoryStore.UpdateSucceedsIff` | src/modules/admin/category/category.repo.ts:188-293 | A rename succeeds exactly when the row exists and no sibling uses the slug; then the invariant holds. |
| `CategoryStore.RemoveKeepsSound` | src/modules/admin/category/category.repo.ts:318-346 | Removing a childless category keeps the invariant. |
| `CategoryStore.PathInvariant` | src/modules/admin/category/category.repo.ts:108-293 | After any sequence of creates, renames and removes every id path and slug path is the join of the ancestors' ids and slugs, depth is at most three and slug paths are unique. |
| `CategoryStore.CandidatesDiffer` | src/modules/admin/category/category.slug.ts:43-44 | base, base-2, base-3 and so on are pairwise different. |
| `CategoryStore.CandidatesFit` | src/modules/admin/category/category.slug.ts:26-46 | Pigeonhole: if the first k candidates are all used, at least k slugs are used. |
| `CategoryStore.FoundSlugSucceeds` | src/modules/admin/category/category.service.ts:24-32 | With the slug the search finds, creation fails only for a missing or too deep parent or a stored empty path. |
| `CategoryStore.FoundSlugRenames` | src/modules/admin/category/category.service.ts:34-49 | With the slug the search finds, a rename of an existing category succeeds and leaves the recomputed table. |
| `CategoryStore.Store.GenerateUniqueSlug` | src/modules/admin/category/category.slug.ts:18-47 | The unbounded loop ends within one probe more than the siblings' slugs and returns the first candidate none of them uses. |
| `CategoryStore.Store.CreateCategory` | src/modules/admin/category/category.repo.ts:108-186 | Insert with empty paths, then set both paths; on any violation the table is as before. |
| `CategoryStore.Store.UpdateCategory` | src/modules/admin/category/category.repo.ts:188-293 | The three updates of a rename as one change of the table, or no change at all. |
| `CategoryStore.Store.RemoveCategory` | src/modules/admin/category/category.repo.ts:318-346 | Succeeds iff no banner, category or other row refers to an existing category; then its row alone is gone, else the table is as before, and the invariant holds. |
| `CategoryStore.CreateEffect` | src/modules/admin/category/category.repo.ts:137-185 | The new row has the given fields and the parent's paths continued by its id and slug; no other row changes. |
| `CategoryStore.CreateRefusals` | src/modules/admin/category/category.repo.ts:108-135 | Each refusal of a creation has its own exact condition. |
| `CategoryStore.UpdateEffect` | src/modules/admin/category/category.repo.ts:188-293 | A rename sets name, slug and status of its row alone; no row changes parent, position or id path. |
| `CategoryStore.RemoveEffect` | src/modules/admin/category/category.repo.ts:318-346 | A removal succeeds iff no banner uses the category, it is there, and neither a category nor anything else refers to it; then exactly its row is gone. Each error has its own condition. |
| `CategoryTree.LinkNodes` | src/modules/admin/category/category.mapper.ts:33-42 | Pushing nodes onto shared parents leaves in each node exactly the rows with that parent, in order, and as roots the rows whose parent is not listed. |
| `CategoryTree.MapCategoryParentTree` | src/modules/admin/category/category.mapper.ts:16-50 | Every node's children are its rows sorted stably by sort order; the result is the first root, if any. |
| `CategoryTree.ForestMeetsEachRowOnce` | src/modules/store/category/category.mapper.ts:4-32 | Whatever rows a query keeps, walking from the roots over the links meets each row exactly once and nothing else. |
| `CategoryTree.SubtreeQueryIsSubtree` | src/modules/admin/category/category.repo.ts:55-77 | The two path conditions select exactly the category and its descendants. |
| `CategoryTree.SubtreeTop` | src/modules/admin/category/category.mapper.ts:33-49 | Among the rows of a subtree only the requested category has no listed parent, whatever their order. |
| `CategoryTree.GetParentTree` | src/modules/admin/category/category.repo.ts:38-88 | The tree returned holds the requested category and its descendants, each once, linked by parent id, children sorted; a missing category is not found. |
| `CategoryTree.MenuQueryIsVisible` | src/modules/store/category/category.repo.ts:17-23 | The status conditions keep exactly the categories with no inactive ancestor or self. |
| `CategoryTree.MenuStartsAtRoots` | src/modules/store/category/category.mapper.ts:20-31 | The roots of the menu are exactly the visible parentless categories. |
| `CategoryTree.GetMegaMenu` | src/modules/store/category/category.repo.ts:6-28 | The menu forest meets every visible category exactly once and nothing else. |
| `Pagination.JoinsGiveOneRow` | src/modules/store/product/sql/product-card.sql.ts:1-23 | The lateral joins give at most one row per product. |
| `Pagination.DisplayVariantMeaning` | src/modules/store/product/sql/product-card.sql.ts:3-10 | The variant shown is the only active one before which no other active one comes, primary first, then smaller id; none iff none is active. |
| `Pagination.JoinedRowsMeaning` | src/modules/store/product/product.repo.ts:546-582 | A row is joined iff it belongs to an active product with an image in use and a wanted display variant; its key is that variant's price, or the creation time. |
| `Pagination.ReaderServesListing` | src/modules/store/product/product.repo.ts:557-582 | Filtering by the cursor before sorting and limiting gives the first rows of what the cursor leaves of the sorted listing. |
| `Pagination.PagesAreTheListingIff` | src/modules/store/product/product.repo.ts:554-598 | The pages of a reading that ends are together exactly the listing if and only if every page end is exact: ascending, the cursor carries the key itself; descending, the next row shows a smaller value, or has the very value the cursor carries and a smaller id. |
| `Pagination.ReadingEndsWithListingIff` | src/modules/store/product/product.repo.ts:554-598 | Following nextCursor ends, and ends with exactly the listing, if and only if every page end is exact. |
| `Pagination.KeysetPaginationIsExact` | src/modules/store/product/product.repo.ts:484-607 | By price, or by timestamps on whole milliseconds, for any limit from one on and either direction, following nextCursor ends and the pages, all full but the last, are together the matching products in (key, id) order, each once; which products match and with which key is said field by field. |
| `Pagination.InexactEndShows` | src/modules/store/product/product.repo.ts:418-423 | After an inexact page end what follows is not the rest of the listing. |
| `Pagination.NewestFirstLosesARow` | src/modules/store/product/product.repo.ts:587-598 | Two products of one millisecond: newest first, the second is never shown. |
| `Pagination.OldestFirstNeverEnds` | src/modules/store/product/product.repo.ts:587-598 | Oldest first with a limit of one, the same product comes back for ever. |
| `ProductImages.ShiftSucceedsIff` | src/modules/admin/product/product.repo.ts:565-576 | The shift by 100 meets the unique index exactly when a row visited earlier is moved onto a row visited later. |
| `ProductImages.OffsetIsSafeIff` | src/modules/admin/product/product.repo.ts:565-576 | The shift is safe in every scan order exactly when no two rows in use differ by 100. |
| `ProductImages.UpdateSucceedsIff` | src/modules/admin/product/product.repo.ts:549-685 | The update succeeds exactly when the shift fits, every reference is valid, every shifted row standing on a requested position has been reused by then, and one to five entries count. |
| `ProductImages.SmallPositionsNeverClash` | src/modules/admin/product/product.repo.ts:565-576 | With all positions below 100 the index never stops the update. |
| `ProductImages.AHundredApartIsStuck` | src/modules/admin/product/product.repo.ts:565-576 | Two rows at positions 0 and 100 make every later update fail in one scan order. |
| `ProductImages.EachEntryKeepsIndex` | src/modules/admin/product/product.repo.ts:578-661 | After every entry the positions in use of a product are pairwise different. |
| `ProductImages.UpdateOutcome` | src/modules/admin/product/product.repo.ts:549-685 | Afterwards the rows in use are exactly those the entries went to, each as its last entry asks; what was in use and not reused is an orphan; everything else is unchanged; one to five entries count. |
| `ProductImages.EveryEntryShownIff` | src/modules/admin/product/product.repo.ts:579-601 | Every entry is shown at its own position exactly when no row is reused twice. |
| `ProductImages.RowNamedTwice` | src/modules/admin/product/product.repo.ts:579-601 | A request that names one row twice is accepted as two images and leaves one, at the second position. |
| `ProductImages.RowsInUse` | src/modules/admin/product/product.repo.ts:677-684 | One to five rows are in use afterwards, as many as entries count exactly when no row is reused twice. |
| `ProductImages.Store.UpdateProductImages` | src/modules/admin/product/product.repo.ts:549-685 | The statements, loop by loop, make that change as a whole or none. |
| `ProductImages.Store.PlaceEntries` | src/modules/admin/product/product.repo.ts:578-661 | One pass over the request with its set of used ids and its count. |
| `ProductImages.Store.OrphanOld` | src/modules/admin/product/product.repo.ts:663-675 | Exactly the rows in use before that no entry used become orphans. |
| `ProductImages.FirstFailureDecides` | src/modules/admin/product/product.repo.ts:578-661 | The first entry that cannot be placed decides the error: a bad request for a wrong reference, else the unique index. |
| `ProductImages.WrongNumberIsRefused` | src/modules/admin/product/product.repo.ts:677-684 | With every entry placed, a number of images outside one to five is a bad request. |
| `ImageFiles.ValidateAndMapProductImages` | src/modules/admin/product/product.image.validator.ts:4-56 | Succeeds exactly when requested names are distinct, uploaded names are distinct and they are the same names. |
| `ImageFiles.PositionsGiveNamedFiles` | src/modules/admin/product/product.image.validator.ts:44-53 | With distinct positions every entry finds at its position the file it names. |
| `ImageFiles.MatchedFilesAreThere` | src/modules/admin/product/product.repo.ts:604-608 | After the match no added image misses its file. |
| `ProductVariants.PivotOnceIff` | src/modules/admin/product/product-variant.repo.ts:204-307 | After a successful update every variant in use has exactly one pivot row per dimension if and only if the keys of the request variants are distinct. |
| `ProductVariants.UpdateStripsArchived` | src/modules/admin/product/product-variant.repo.ts:204-212 | Archived variants are left without pivot rows, whatever the keys. |
| `ProductVariants.VariantReconciliation` | src/modules/admin/product/product.repo.ts:335-380 | With distinct keys the variants in use are exactly the request's, each row with its entry's price, stock, weight, SKU, primary mark and status, named ones in their own rows, new ones in new rows, exactly one primary. |
| `ProductVariants.OneRowPerDimension` | src/modules/admin/product/product-variant.repo.ts:283-305 | Choosing once for as many dimensions as there are writes exactly one row for each dimension, by a counting argument over the id map. |
| `ProductVariants.LiveIsWritten` | src/modules/admin/product/product-variant.repo.ts:21-39 | The variants not archived after the writing are exactly the rows written. |
| `VariantRuns.UpdateSucceedsIff` | src/modules/admin/product/product-variant.repo.ts:41-117 | An update succeeds exactly when the rules hold, every named variant is the product's and not archived, and every choice is among the offered dimensions and options. |
| `VariantRuns.UpdateKeepsOthers` | src/modules/admin/product/product-variant.repo.ts:21-39 | Variants of other products and archived variants stay as they are; no variant changes product. |
| `VariantRuns.PivotStaysExact` | src/modules/admin/product/product.repo.ts:335-459 | Over any run of updates with distinct keys and status changes every variant in use keeps one pivot row per dimension and every archived one has none. |
| `VariantRuns.ArchivedIsForever` | src/modules/admin/product/product.repo.ts:447-458 | No update and no status change ever alters an archived variant's row. |
| `VariantRuns.ClientIdCollides` | src/modules/admin/product/product-variant.repo.ts:559-561 | A new variant whose client id spells the id of another is accepted and breaks the pivot. |
| `VariantStore.Store.UpdateProductVariants` | src/modules/admin/product/product.repo.ts:335-380 | Archive, update, insert, then clear or rebuild according to the dimension state, as a whole or not at all. |
| `VariantStore.Store.UpdateExistingVariants` | src/modules/admin/product/product-variant.repo.ts:41-117 | The loop writes each named variant's fields into its row and maps its id, or stops with the first error. |
| `VariantStore.Store.InsertNewVariants` | src/modules/admin/product/product-variant.repo.ts:119-165 | The loop inserts each new variant and maps its client id. |
| `VariantStore.Store.RebuildDimensionsAndPivot` | src/modules/admin/product/product-variant.repo.ts:204-307 | Three loops rebuild dimensions, values and pivot from the request. |
| `VariantStore.Store.ClearAllDimensionsAndPivot` | src/modules/admin/product/product-variant.repo.ts:167-202 | Deletes pivot rows, values and dimensions of the one product. |
| `VariantStore.Store.UpdateStatuses` | src/modules/admin/product/product.repo.ts:447-458 | Every variant of the products that is not archived gets the new status and keeps the rest; archived variants, other products and the pivot stay as they are. |
| `VariantEffects.RulesMeaning` | src/modules/admin/product/product.service.ts:260-305 | The rules hold iff exactly one variant is primary, active if the product is, a lone variant has no options and every one of several has some. |
| `VariantEffects.UpdateSucceedsExactly` | src/modules/admin/product/product.repo.ts:335-380 | In the request's own terms: one primary, active if the product is, every named variant the product's and not archived, every choice on offer. |
| `VariantEffects.UpdateRefusals` | src/modules/admin/product/product-variant.repo.ts:41-117 | A request against the rules is a bad request; one that only asks for options not on offer is an internal error. |
| `VariantEffects.DroppedAreArchived` | src/modules/admin/product/product-variant.repo.ts:21-39 | A variant in use that the request does not name is archived and keeps everything else. |
| `VariantEffects.ChoicesArePivotRows` | src/modules/admin/product/product-variant.repo.ts:283-305 | Every choice of every request variant is a pivot row of the row its key leads to, under the new row of the chosen dimension and of the option last offered under its name. |
| `VariantEffects.OptionsAreValueRows` | src/modules/admin/product/product-variant.repo.ts:241-270 | Every option offered has a new value row under the new row of its dimension's id. |
| `VariantImages.BuildAllIsPerProduct` | src/shared/variant-image/resolver.ts:3-36 | Grouping many products together gives each product what grouping its own rows gives. |
| `VariantImages.ImagesMeaning` | src/shared/variant-image/resolver.ts:14-33 | There is one image per image key in the rows, signed for each dimension by the last row that gives a value. |
| `VariantImages.BuildImageMap` | src/shared/variant-image/resolver.ts:3-36 | The loop over rows with lists changed in place computes that grouping. |
| `VariantImages.ImagesAreNamedByFirst` | src/shared/variant-image/resolver.ts:14-33 | Each image carries the row id and image id of the first row with its key. |
| `VariantImages.NormalizedMeaning` | src/shared/variant-image/resolver.ts:39-43 | A dimension of the lower-cased snapshot has the value of the last choice for it. |
| `VariantImages.FindBestImage` | src/shared/variant-image/resolver.ts:46-81 | Returns the earliest of the matching images with the most signature entries, and nothing iff none matches. |
| `VariantImages.BestIsUnique` | src/shared/variant-image/resolver.ts:53-73 | At most one image can be that best match. |
| `ImageCache.BulkIsDirect` | src/modules/product/product-image.service.ts:52-73 | A bulk computation gives each product its direct answer. |
| `ImageCache.Service.GetVariantImagesBulk` | src/modules/product/product-image.service.ts:11-83 | Answers every id asked for: from the cache where it parses, else directly; missing and corrupt entries are filled and no others change. |
| `ImageCache.Service.ReadCache` | src/modules/product/product-image.service.ts:31-50 | Splits the ids into answered and missing ones, deleting what does not parse. |
| `ImageCache.CleanUpIsNeutral` | src/modules/internal/workers/worker.repo.ts:145-201 | Deleting orphan rows changes no direct answer. |
| `ImageCache.CacheIsTransparent` | src/modules/admin/product/product.service.ts:117-120 | After any run of whole or divided reads, updates with invalidation, clean-ups, expiries and damage, a bulk read answers for a product what the uncached computation answers, unless it was updated while a reader was about to store what it had read for it. |
| `ImageCache.UndividedReadsAreQuiet` | src/modules/product/product-image.service.ts:52-80 | Where bulk reads run undivided that exception never arises, for any product and any run. |
| `ImageCache.LateFillIsStaleIff` | src/modules/product/product-image.service.ts:52-78 | The exception is needed: query, update with invalidation, store is a possible run, and it leaves a wrong answer exactly when the update changed something. |
| `ImageCache.LateStoreIsRightIff` | src/modules/product/product-image.service.ts:52-78 | Whatever happens between a query and its late store, the answer cached then is right exactly when the direct answer is what it was at the query. |
| `ImageCache.FirstPictureIsFirst` | src/modules/product/product-image.repo.ts:43-52 | The fallback is the picture in use that comes first by position and id. |
| `ImageCache.FallbackMeaning` | src/modules/product/product-image.repo.ts:36-59 | The fallback carries image id and key of the picture in use that comes first; none iff no picture is in use. |
| `ImageCache.QueryMeaning` | src/modules/product/product-image.repo.ts:16-33 | A query keeps exactly the rows of the products asked for that are not orphans. |
| `ImageCache.DirectMeaning` | src/modules/product/product-image.service.ts:52-73 | An uncached answer has one image for each key among the product's rows in use, signed by those rows and named by the first of them. |
| `ImageCache.ImageOfItem` | src/modules/user/checkout/checkout.user.service.ts:311-324 | An item is shown with its best match, else the fallback, else nothing. |

## Left out

- HTTP, request parsing, mail, object storage, image processing, Redis and the payment and shipping
  gateways are not modelled; what they deliver is a parameter.
- Hashing, signatures and random tokens: a presented refresh token is the id of the row its hash finds,
  and new tokens have new ids.
- OrderStore.Store.PlaceOrder: the checkout around the order insert and the stock (session, cart,
  addresses, prices) is left out, and in the interleavings placement is one atomic step.
- OrderProtocol.StepKeepsInvariant: covers the worker's expiry, not its cron twin
  `src/workers/jobs/expire-orders.job.ts`, which takes no lock; deadlocks and progress are not modelled.
- OrderStore.Store.HandleWebhook: settlement time, gross amount and the other descriptive payment columns
  are left out, and an unknown status is the violation of the column's CHECK constraint.
- OrderStore.Store.CancelOrder: whether the order belongs to the caller is a parameter.
- OrderStore.Store.CompleteDelivered: the two updates are simultaneous maps over the rows, since SQL
  gives their order no meaning.
- Overflow of four-byte stock and sold columns, admin edits of stock, and the timestamp columns that no
  decision reads.
- SessionProtocol.ResetBeatsRefresh: a session opened by a login whose insert falls after the reset's
  session update is outside the claim.
- SessionStore.Store.CloseUserSessions: the checks on the user and the verification row before it, and the
  user row itself, are left out; a user that is gone is a parameter of refresh.
- CategoryStore.PathInvariant: operations run one after the other; two concurrent renames take no common
  lock in the source and are not claimed to keep the paths.
- CategoryStore.Store.CreateCategory: the next sort order and the description are not computed, reordering
  siblings changes no path, and the service's one retry after a unique violation would meet the same table.
- The store's listing by category matches id paths without a slash
  (`src/modules/store/product/product.repo.ts:183`) and is only a superset of the subtree; it is not claimed
  to be exact.
- CategoryTree.GetParentTree: node fields that only get copied are the row itself.
- Pagination.KeysetPaginationIsExact: the data does not change between pages; the cursor's base64 and JSON
  text is its payload, an unreadable one is none; the search-rank sort is left out.
- Pagination.JoinsGiveOneRow: price, scope and dimension filters are one parameter.
- ProductImages.Store.UpdateProductImages: the metadata rows are their keys, and the service's one retry
  after a unique violation would run the same transaction again.
- ImageFiles.ValidateAndMapProductImages: its twin for variant images differs only in keys.
- VariantStore.Store.UpdateProductVariants: the statements on variant images and their signatures, and the
  option snapshot's text, are left out; a snapshot fails as in the source when an option is unknown.
- VariantStore.Store.UpdateExistingVariants: the option snapshot's text is left out.
- VariantStore.Store.InsertNewVariants: the option snapshot's text is left out.
- ProductVariants.PivotOnceIff: that a pivot row's value belongs to the row's dimension is not claimed; the
  source does not check it.
- VariantImages.BuildImageMap: the query has no ORDER BY; its row order is taken as fixed.
- VariantImages.FindBestImage: lower-casing is a parameter, and keys with a meaning to JavaScript objects
  are ordinary texts.
- ImageCache.CacheIsTransparent: an update and the deletion of its key are one step, and the two queries of
  a fill read the same tables.  Creating a product is not a step, and a cached text that parses to something
  else than was stored is left out.
- Status display, masking, dashboards, addresses, cart quantities and the time-based deletion jobs would
  only add easy members.
