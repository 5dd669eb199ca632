# Memo and user backend: domain and application layer in Dafny

This project models the domain and application layer of a small note-taking
backend with user accounts:

- two immutable entities, `Memo` (its title must contain a non-white-space
  character) and `User` (soft-deleted through a nullable `deletedAt`, one way);
- the `MemoRepository` and `UserRepository` contracts, as tables (`map`s keyed by
  id) whose writes report the repository error taxonomy (not found, conflict,
  persistence) and whose reads return null (`None`) for a missing row; the user
  table keeps e-mails unique;
- the Prisma user adapter, which upserts by id, wraps every `save` failure as a
  persistence error and classifies `delete` failures by the store's error code
  (P2025 is not found, anything else persistence);
- the seven use cases `CreateMemo`, `UpdateMemo`, `DeleteMemo`, `RegistUser`,
  `UpdateUserEmail`, `UpdateUserPassword` and `DeleteUser`, whose checks run in
  a fixed order before at most one write.

Each repository write and each use case is a pure function over the table that
returns what the call resolved or rejected with, the repository calls made in
order, and the table left behind (`CreateIn`, `UpdateMemoRun`, ...). The
classes (`MemoRepository`, `UserRepository`, `PrismaUserRepository` and one
class per use case holding its repository) change their tables in place and are
proved equal to those functions; each contract repository (`MemoRepository`,
`UserRepository`) keeps a ghost log `calls`, so the use cases' contracts can say
which calls were made and in which order. The id `ulid()`
generates and the clock `new Date()` reads arrive as parameters (`newId`, `now`).
A store that cannot be reached is the repository field `storeDown`: while it
holds, every write rejects with a persistence error. JavaScript's
`String.prototype.trim` is modelled over the white space set of ECMA-262, and a
`Date | null` field is a `Stamp` (`Null`, `Undefined` or `At(ms)`).

Where the code and the behaviour its tests expect (or, for the adapter, what
the entity's `isDeleted` needs) disagree, the model follows the code: `UpdateMemoUsecase.execute` writes back the memo it loaded, and neither it
nor `DeleteMemoUseCase.execute` checks ownership, and the user adapter's
`findById` and `findByEmail` load every user as deleted. The behaviour the use cases'
tests expect (ownership check, new title and content) is modelled beside it as
`ExecuteAsTested`, and the adapter's lookups with the deletion date passed on
as `FindByIdCorrectedIn` and `FindByEmailCorrectedIn`; see "## Findings".

Files: `wrappers.dfy` (Option, Result, Outcome), `js.dfy` (trim, white space,
`Stamp`), `repository_errors.dfy`, `application_errors.dfy`, `memo_entity.dfy`,
`user_entity.dfy`, `memo_repository.dfy`, `user_repository.dfy`,
`prisma_user_repository.dfy`, one file per use case, and `user_lifecycle.dfy`
(the user state machine across all user use cases).

## Model

| member | source | states |
|---|---|---|
| Js.TrimStart | backend/src/modules/memo/domain/entities/memo.entity.ts:17 | the result is a suffix of the input, only white space is dropped, it starts with a non-white-space character, and it is empty exactly when the input is all white space |
| Js.TrimEnd | backend/src/modules/memo/domain/entities/memo.entity.ts:17 | the result is a prefix of the input, only white space is dropped, it ends with a non-white-space character, and it is empty exactly when the input is all white space |
| Js.Trim | backend/src/modules/memo/domain/entities/memo.entity.ts:17 | `trim()` is the infix of the string left after removing white space on both sides: everything before and after it is white space, it neither starts nor ends with white space, and it is empty exactly when the string is all white space |
| MemoEntity.TitleMissing | backend/src/modules/memo/domain/entities/memo.entity.ts:17 | the guard `!title \|\| title.trim().length === 0` holds exactly for empty or all-white-space titles |
| MemoEntity.Create | backend/src/modules/memo/domain/entities/memo.entity.ts:11-21 | fails with "タイトルは必須です" exactly when the title is blank; otherwise keeps id, userId, title (untrimmed) and content verbatim and both timestamps null |
| MemoEntity.From | backend/src/modules/memo/domain/entities/memo.entity.ts:23-32 | carries all six fields unchanged, without validation |
| MemoEntity.FromSkipsValidation | backend/src/modules/memo/domain/entities/memo.entity.ts:17-32 | every title `create` refuses (empty or all white space) is accepted by `from` and kept verbatim |
| MemoEntity.Memo.Update | backend/src/modules/memo/domain/entities/memo.entity.ts:34-46 | rejects a blank title with the same error; otherwise replaces title and content only, keeping id, userId, createdAt and updatedAt |
| MemoEntity.UpdateKeepsIdentity | backend/src/modules/memo/domain/entities/memo.entity.ts:34-45 | `update` accepts exactly the titles `create` accepts and never changes identity or owner |
| UserEntity.Create | backend/src/modules/user/domain/entities/user.entity.ts:12-19 | keeps the four arguments, sets all three timestamps null, so the new user is not deleted |
| UserEntity.From | backend/src/modules/user/domain/entities/user.entity.ts:21-39 | carries all seven fields unchanged; the user is deleted exactly when deletedAt is non-null |
| UserEntity.User.IsDeleted | backend/src/modules/user/domain/entities/user.entity.ts:89-91 | only a null deletion date reads as live; a date or an omitted (undefined) one reads as deleted |
| UserEntity.User.Update | backend/src/modules/user/domain/entities/user.entity.ts:41-51 | replaces email, passwordHash and name, keeping id and all timestamps |
| UserEntity.User.UpdateEmail | backend/src/modules/user/domain/entities/user.entity.ts:53-63 | the result differs from the receiver in email only |
| UserEntity.User.UpdatePasswordHash | backend/src/modules/user/domain/entities/user.entity.ts:65-75 | the result differs from the receiver in passwordHash only |
| UserEntity.User.Delete | backend/src/modules/user/domain/entities/user.entity.ts:77-87 | sets deletedAt to the clock reading, keeps every other field, and the result is deleted |
| UserEntity.DeletedIsTerminal | backend/src/modules/user/domain/entities/user.entity.ts:41-91 | after any sequence of entity methods a deleted user is still deleted, with the same id and createdAt |
| UserEntity.OnlyDeleteSetsDeletedAt | backend/src/modules/user/domain/entities/user.entity.ts:49-73 | a sequence of updates without `delete` leaves deletedAt exactly as it was |
| RepositoryErrors.TypeTag | backend/src/modules/common/not-found.error.ts:4 | each kind has its own `type` tag: REPOSITORY_NOT_FOUND, REPOSITORY_CONFLICT, REPOSITORY_PERSISTENCE_ERROR |
| ApplicationErrors.Propagate | backend/src/modules/memo/application/commands/create-memo/create-memo.usecase.ts:17 | an awaited write without `catch` resolves when the write does and rejects with the repository error unchanged |
| MemoRepo.FindByIdIn | backend/src/modules/memo/domain/memo.repository.ts:6 | null exactly for an unknown id; a found memo carries the id asked for |
| MemoRepo.FindByUserIdIn | backend/src/modules/memo/domain/memo.repository.ts:7-11 | exactly the stored memos of that user, each findable by its id |
| MemoRepo.CreateIn | backend/src/modules/memo/domain/memo.repository.ts:4 | succeeds exactly for a new id, a stored id is a conflict, an unreachable store a persistence error; afterwards the memo is found and no other row changed; a rejection changes nothing |
| MemoRepo.UpdateIn | backend/src/modules/memo/domain/memo.repository.ts:5 | succeeds exactly for a stored id, an absent id is not found; afterwards the new memo is found and no other row changed |
| MemoRepo.DeleteIn | backend/src/modules/memo/domain/memo.repository.ts:12 | succeeds exactly for a stored id, an absent id is not found; afterwards `findById` returns null and no other row changed |
| MemoRepo.CreateThenFind | backend/src/modules/memo/infra/prisma-memo.repository.spec.ts:58-80 | a created memo is found again, field for field |
| MemoRepo.CreateTwiceConflicts | backend/src/modules/memo/infra/prisma-memo.repository.spec.ts:229-254 | a second create with the same id rejects with a conflict and changes nothing |
| MemoRepo.UpdateReplacesTitleAndContent | backend/src/modules/memo/infra/prisma-memo.repository.spec.ts:84-144 | updating stores the new title and content and leaves the unchanged one as it was |
| MemoRepo.CreateDeleteFind | backend/src/modules/memo/infra/prisma-memo.repository.spec.ts:178-197 | after create then delete, `findById` returns null |
| MemoRepo.MemoRepository.FindById | backend/src/modules/memo/domain/memo.repository.ts:6 | returns the lookup and logs the call, table unchanged |
| MemoRepo.MemoRepository.Create | backend/src/modules/memo/domain/memo.repository.ts:4 | table and result are those of `CreateIn`, the call is logged, rows stay keyed by id |
| MemoRepo.MemoRepository.Update | backend/src/modules/memo/domain/memo.repository.ts:5 | table and result are those of `UpdateIn`, the call is logged |
| MemoRepo.MemoRepository.Delete | backend/src/modules/memo/domain/memo.repository.ts:12 | table and result are those of `DeleteIn`, the call is logged |
| UserRepo.FindByIdIn | backend/src/modules/user/domain/user.repository.ts:5 | null exactly for an unknown id; a found user carries the id asked for |
| UserRepo.FindByEmailIn | backend/src/modules/user/domain/user.repository.ts:6 | null exactly when no stored user, deleted or not, holds the e-mail; otherwise that user, also found by its id |
| UserRepo.CreateIn | backend/src/modules/user/domain/user.repository.ts:4 | succeeds exactly when both id and e-mail are new, else a conflict; keeps e-mails unique; a rejection changes nothing |
| UserRepo.UpdateIn | backend/src/modules/user/domain/user.repository.ts:7 | an absent id is not found, an e-mail held by another row a conflict; otherwise the row is replaced and e-mails stay unique |
| UserRepo.DeleteIn | backend/src/modules/user/domain/user.repository.ts:8 | succeeds exactly for a stored id, else not found; afterwards `findById` returns null |
| UserRepo.CreateThenFind | backend/src/modules/user/infra/prisma-user.repository.spec.ts:52-102 | a created user is found again by id and by e-mail |
| UserRepo.SecondCreateWithSameEmailConflicts | backend/src/modules/user/infra/prisma-user.repository.spec.ts:206-231 | a second user with the same e-mail is a conflict and changes nothing |
| UserRepo.UpdateKeepingEmail | backend/src/modules/user/infra/prisma-user.repository.spec.ts:112-176 | an update with the same e-mail succeeds, stores the new name and hash and keeps the e-mail |
| UserRepo.CreateDeleteFind | backend/src/modules/user/infra/prisma-user.repository.spec.ts:180-200 | after create then delete, `findById` returns null |
| UserRepo.UserRepository.FindById | backend/src/modules/user/domain/user.repository.ts:5 | returns the lookup and logs the call, table unchanged |
| UserRepo.UserRepository.FindByEmail | backend/src/modules/user/domain/user.repository.ts:6 | returns the lookup and logs the call, table unchanged |
| UserRepo.UserRepository.Create | backend/src/modules/user/domain/user.repository.ts:4 | table and result are those of `CreateIn`; e-mails stay unique |
| UserRepo.UserRepository.Update | backend/src/modules/user/domain/user.repository.ts:7 | table and result are those of `UpdateIn`; e-mails stay unique |
| UserRepo.UserRepository.Delete | backend/src/modules/user/domain/user.repository.ts:8 | table and result are those of `DeleteIn` |
| CreateMemo.CreateMemoRun | backend/src/modules/memo/application/commands/create-memo/create-memo.usecase.ts:9-18 | a blank title rejects with the validation error and no call; otherwise one `create` of a memo with the fresh id and the command's fields, whose rejection passes through unchanged; success stores it |
| CreateMemo.GeneratedIdCollisionIsConflict | backend/src/modules/memo/application/commands/create-memo/create-memo.usecase.ts:10-17 | a generated id already stored rejects with the repository conflict and changes nothing |
| CreateMemo.CreateMemoUseCase.Execute | backend/src/modules/memo/application/commands/create-memo/create-memo.usecase.ts:9-18 | result, table and logged calls are those of `CreateMemoRun` |
| UpdateMemo.UpdateMemoRun | backend/src/modules/memo/application/commands/update-memo/update-memo.usecase.ts:7-13 | `findById` first; a missing memo is MemoNotFound with no write; otherwise one `update` with the memo as loaded, so the table is unchanged |
| UpdateMemo.UpdateMemoIgnoresCommandFields | backend/src/modules/memo/application/commands/update-memo/update-memo.usecase.ts:12 | two commands with the same memo id behave identically: title, content and userId are unused |
| UpdateMemo.UpdateMemoUsecase.Execute | backend/src/modules/memo/application/commands/update-memo/update-memo.usecase.ts:7-13 | result, table and logged calls are those of `UpdateMemoRun` |
| UpdateMemo.UpdateMemoAsTestedRun | backend/src/modules/memo/application/commands/update-memo/update-memo.usecase.spec.ts:25-101 | not found, then not owned, then a blank title rejected with the validation error "タイトルは必須です", each without a write; otherwise one `update` storing the new title and content |
| UpdateMemo.UpdateOwnedRun | backend/src/modules/memo/application/commands/update-memo/update-memo.usecase.spec.ts:25-54 | for a found memo of the caller: a blank title is the validation error with no write; otherwise exactly one `update` with the new title and content, which then loads back, other rows unchanged |
| UpdateMemo.UpdateMemoUsecase.ExecuteAsTested | backend/src/modules/memo/application/commands/update-memo/update-memo.usecase.spec.ts:25-101 | result, table and logged calls are those of `UpdateMemoAsTestedRun` |
| UpdateMemo.UpdateKeepsOriginalTitle | backend/src/modules/memo/application/commands/update-memo/update-memo.usecase.spec.ts:25-54 | as written, the test's scenario leaves the stored title "Original Title" |
| DeleteMemo.DeleteMemoRun | backend/src/modules/memo/application/commands/delete-memo/delete-memo.usecase.ts:7-13 | `findById` first; a missing memo is MemoNotFound with no `delete`; otherwise `delete` with the same id, after which the memo is gone and other rows unchanged |
| DeleteMemo.DeleteMemoAsTestedRun | backend/src/modules/memo/application/commands/delete-memo/delete-memo.usecase.spec.ts:24-84 | as above, but a memo of another user is MemoNotOwned with no `delete` |
| DeleteMemo.AsWrittenAnyoneDeletes | backend/src/modules/memo/application/commands/delete-memo/delete-memo.usecase.ts:7-13 | as written a non-owner's delete succeeds, where the tested behaviour rejects it |
| DeleteMemo.DeleteMemoUseCase.Execute | backend/src/modules/memo/application/commands/delete-memo/delete-memo.usecase.ts:7-13 | result, table and logged calls are those of `DeleteMemoRun` |
| DeleteMemo.DeleteMemoUseCase.ExecuteAsTested | backend/src/modules/memo/application/commands/delete-memo/delete-memo.usecase.spec.ts:24-84 | result, table and logged calls are those of `DeleteMemoAsTestedRun` |
| DeleteMemo.OtherUserDeletesMemo | backend/src/modules/memo/application/commands/delete-memo/delete-memo.usecase.spec.ts:64-84 | as written, the test's non-owner scenario deletes the memo |
| RegistUser.RegistUserRun | backend/src/modules/user/application/commands/regist-user/regist-user.usecase.ts:9-21 | `findByEmail` first; an e-mail held by any user is UserEmailAlreadyExists with no `create`; a free e-mail leads to exactly one `create` of a new, not deleted user with the command's fields; its rejection passes through |
| RegistUser.SecondRegistrationRefused | backend/src/modules/user/application/commands/regist-user/regist-user.usecase.ts:10-13 | after a successful registration, a second one with the same e-mail is refused and changes nothing |
| RegistUser.RegistUserUseCase.Execute | backend/src/modules/user/application/commands/regist-user/regist-user.usecase.ts:9-21 | result, table and logged calls are those of `RegistUserRun` |
| UpdateUserEmail.UpdateUserEmailRun | backend/src/modules/user/application/commands/update-user-email/update-user-email.usecase.ts:10-27 | not found, deleted, e-mail held by another user, unchanged e-mail, in that order, none writing; otherwise one `update` differing only in e-mail |
| UpdateUserEmail.UpdateUserEmailUseCase.Execute | backend/src/modules/user/application/commands/update-user-email/update-user-email.usecase.ts:10-27 | result, table and logged calls are those of `UpdateUserEmailRun` |
| UpdateUserPassword.UpdateUserPasswordRun | backend/src/modules/user/application/commands/update-user-password/update-user-password.usecase.ts:9-21 | not found, deleted, unchanged hash (which resolves), none writing; otherwise one `update` differing only in the hash; `findByEmail` is never called |
| UpdateUserPassword.UpdateUserPasswordUseCase.Execute | backend/src/modules/user/application/commands/update-user-password/update-user-password.usecase.ts:9-21 | result, table and logged calls are those of `UpdateUserPasswordRun` |
| DeleteUser.DeleteUserRun | backend/src/modules/user/application/commands/delete-user/delete-user.usecase.ts:9-20 | not found, then already deleted, neither writing; otherwise `update` with the user marked deleted and all else unchanged; `delete` and `create` are never called |
| DeleteUser.SecondDeleteRejected | backend/src/modules/user/application/commands/delete-user/delete-user.usecase.ts:14-16 | a second delete of the same user rejects with UserAlreadyDeleted and writes nothing |
| DeleteUser.DeleteUserUseCase.Execute | backend/src/modules/user/application/commands/delete-user/delete-user.usecase.ts:9-20 | result, table and logged calls are those of `DeleteUserRun` |
| UserLifecycle.Step | backend/src/modules/user/domain/user.repository.ts:3-9 | every user use case keeps stored e-mails unique |
| UserLifecycle.RunAll | backend/src/modules/user/domain/user.repository.ts:3-9 | any sequence of user use cases keeps stored e-mails unique |
| UserLifecycle.StepKeepsDeletedRow | backend/src/modules/user/application/commands/delete-user/delete-user.usecase.ts:14-16 | no user use case changes a deleted user's row |
| UserLifecycle.DeletedRowIsFrozen | backend/src/modules/user/domain/entities/user.entity.ts:89-91 | Deleted is terminal: after any sequence of user use cases a deleted user's row is unchanged |
| UserLifecycle.OnlyDeleteUserDeletes | backend/src/modules/user/application/commands/delete-user/delete-user.usecase.ts:18-19 | an active user becomes deleted only through DeleteUser on that user |
| UserLifecycle.RowsAreNeverRemoved | backend/src/modules/user/application/commands/delete-user/delete-user.usecase.ts:9-20 | no user use case removes a row: deletion is soft |
| PrismaUserRepo.UpsertIn | backend/src/modules/user/infra/prisma-user.repository.ts:16-29 | upsert by id: an e-mail held by another row fails with P2002 and changes nothing; otherwise the id is stored and other rows are unchanged |
| PrismaUserRepo.DeleteRowIn | backend/src/modules/user/infra/prisma-user.repository.ts:75-77 | the store's delete fails with P2025 exactly when the row is missing |
| PrismaUserRepo.ClassifySaveFailure | backend/src/modules/user/infra/prisma-user.repository.ts:30-32 | every `save` failure becomes a persistence error carrying its cause |
| PrismaUserRepo.ClassifyDeleteFailure | backend/src/modules/user/infra/prisma-user.repository.ts:78-86 | P2025 becomes not found, any other failure persistence, never a conflict; the cause is kept |
| PrismaUserRepo.SaveIn | backend/src/modules/user/infra/prisma-user.repository.ts:14-33 | any failure is a persistence error and changes nothing; success writes e-mail, hash and name and never a date, inserting with no deletion date |
| PrismaUserRepo.DeleteIn | backend/src/modules/user/infra/prisma-user.repository.ts:73-87 | a missing row rejects with not found, any other failure with persistence; success removes exactly that row |
| PrismaUserRepo.ToUserAsWritten | backend/src/modules/user/infra/prisma-user.repository.ts:44-51 | the mapping as written copies six fields and leaves deletedAt undefined |
| PrismaUserRepo.AsWrittenLiveRowLoadsDeleted | backend/src/modules/user/infra/prisma-user.repository.ts:44-51 | as written, a row with no deletion date loads as a deleted user |
| PrismaUserRepo.ToUser | backend/src/modules/user/infra/prisma-user.repository.ts:44-51 | the corrected mapping (the row's deletion date passed as the seventh argument): the row field for field as a User, deleted exactly when the row has a deletion date |
| PrismaUserRepo.FindByIdIn | backend/src/modules/user/infra/prisma-user.repository.ts:35-52 | as written: null exactly when no row has the id, otherwise the row's id, e-mail, hash and name with `deletedAt` undefined, so the user reports deleted |
| PrismaUserRepo.FindByEmailIn | backend/src/modules/user/infra/prisma-user.repository.ts:54-71 | as written: null exactly when no row has the e-mail, otherwise that row, loaded deleted, and the same user `findById` returns |
| PrismaUserRepo.FindByIdCorrectedIn | backend/src/modules/user/infra/prisma-user.repository.ts:35-52 | with the corrected mapping: null exactly when no row has the id, otherwise the row, deleted exactly when the row has a deletion date |
| PrismaUserRepo.FindByEmailCorrectedIn | backend/src/modules/user/infra/prisma-user.repository.ts:54-71 | with the corrected mapping: null exactly when no row has the e-mail, otherwise that row, also found by its id |
| PrismaUserRepo.SaveDropsSoftDelete | backend/src/modules/user/infra/prisma-user.repository.ts:18-28 | saving the soft-deleted version of a live user succeeds but leaves the stored row without a deletion date |
| PrismaUserRepo.SaveDropsSoftDeleteCorrectedLookup | backend/src/modules/user/infra/prisma-user.repository.ts:18-28 | through the corrected lookup, that user still loads as not deleted |
| PrismaUserRepo.SaveThenFind | backend/src/modules/user/infra/prisma-user.repository.ts:14-52 | a saved user loads back with its id, e-mail, hash and name, and, as written, as deleted |
| PrismaUserRepo.PrismaUserRepository.Save | backend/src/modules/user/infra/prisma-user.repository.ts:14-33 | table and result are those of `SaveIn`; ids and e-mails stay unique |
| PrismaUserRepo.PrismaUserRepository.FindById | backend/src/modules/user/infra/prisma-user.repository.ts:35-52 | as written: null exactly for an unknown id, otherwise the row's user, reporting deleted |
| PrismaUserRepo.PrismaUserRepository.FindByEmail | backend/src/modules/user/infra/prisma-user.repository.ts:54-71 | as written: null exactly when no row holds the e-mail, otherwise that user, reporting deleted and also found by id |
| PrismaUserRepo.PrismaUserRepository.Delete | backend/src/modules/user/infra/prisma-user.repository.ts:73-87 | table and result are those of `DeleteIn` |

## Left out

- Promises and `async`: each `execute` and each repository call is a sequential method; races between a use case's check and its write are not modelled, beyond repository rejections being passed on unchanged.
- MemoRepo.FindByUserIdIn: returns the user's memos as a set; the order of the returned array and the optional `limit` and `offset` are not modelled, as no implementation of `findByUserId` exists to say what they do.
- Store failures on reads: `findById`, `findByEmail` and `findByUserId` never fail in the model.
- `storeDown` makes every write of the contract repositories fail together; a store that fails one write and not the next is not modelled there (the Prisma adapter takes a per-call `fault` instead).
- The contract repositories store the entity as given; dates the store assigns on insert or update are not modelled there. In the Prisma adapter the column defaults on insert are the parameter `now`, and an automatic `updatedAt` bump on update is not modelled, because the database schema is not part of this model.
- `prisma-user.repository.ts` has no `create` or `update`, though `UserRepository` declares them; the use cases are modelled against the `UserRepository` contract, not against the adapter.
- `prisma-memo.repository.ts`, the HTTP controllers, the JWT strategy, the current-user decorator, the health endpoint and the frontend page: framework glue with no logic of their own.
- `!title` for a title that is not a string (null or undefined at run time): titles are strings here.
- The messages of the application errors are not modelled, only their kinds and the ids they carry; the validation message and the adapter's messages are.
- `IsWs` is a fixed list of code points (the Space_Separator set of current Unicode plus the ECMA-262 additions).

## Findings

| source | as written | input that shows it | evidently intended | confidence | as-written member | corrected member |
|---|---|---|---|---|---|---|
| backend/src/modules/user/infra/prisma-user.repository.ts:44-51 | `User.from` receives six arguments, so `deletedAt` is `undefined` and `isDeleted()` (`deletedAt !== null`) is true for every loaded user; the same at lines 63-70 | any stored row with no deletion date, e.g. a user just saved | pass the row's deletion date (null for a live user) | medium, not executed; TypeScript's checker would report the missing argument (user.entity.ts:28 declares `deletedAt: Date` as required) | PrismaUserRepo.AsWrittenLiveRowLoadsDeleted | PrismaUserRepo.FindByIdCorrectedIn |
| backend/src/modules/memo/application/commands/update-memo/update-memo.usecase.ts:12 | `update` receives the memo as loaded; the command's title and content are ignored | memo "memo-456" titled "Original Title", command with "Updated Title": the stored title stays "Original Title" | `update` receives `memo.update(title, content)`, as the use case's test expects | high, not executed | UpdateMemo.UpdateKeepsOriginalTitle | UpdateMemo.UpdateMemoUsecase.ExecuteAsTested |
| backend/src/modules/memo/application/commands/update-memo/update-memo.usecase.ts:8-12 | no ownership check: any user updates any memo | memo owned by "owner-123", command from "other-user-456": `update` is called | MemoNotOwnedError before `update` | high, not executed | UpdateMemo.UpdateMemoIgnoresCommandFields | UpdateMemo.UpdateMemoAsTestedRun |
| backend/src/modules/memo/application/commands/delete-memo/delete-memo.usecase.ts:8-12 | no ownership check: any user deletes any memo | memo "memo-789" owned by "owner-123", deleted by "other-user-456": the memo is gone | MemoNotOwnedError before `delete` | high, not executed | DeleteMemo.OtherUserDeletesMemo | DeleteMemo.DeleteMemoUseCase.ExecuteAsTested |
