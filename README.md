# Mailing-list archive: ingestion and threading

A Dafny model of the part of the mailing-list archive that receives emails,
files them into threads and rebuilds a thread's reply tree.

- **Receiving an email** (`ReceiveEmailHandler::__invoke`): an email whose id
  is already stored is skipped. Otherwise its subject is sanitized and its
  text is parsed. The thread with the sanitized subject is looked up and
  created when there is none. Then one row is inserted into the `emails`
  table.
- **The email repository** (`EmailRepository`): `contains`, `add`,
  `updateContent` and `getThreadCount` over the `emails` table, whose primary
  key is `id`.
- **The thread view** (`EmailRepository::getThreadView`): the thread's rows
  come in date order. They are indexed by `imapId ?? id`. Each item whose
  `inReplyTo` is truthy and names an indexed key is attached as a reply to
  that item. Every other item becomes a root.
- **The thread repository** (`DbThreadRepository`): `findBySubject` returns
  the id of a thread with the subject, or 0. `create` inserts a row and
  returns its autoincrement id.

The two SQL tables are in-memory state. `EmailRepository.rows` is the
`emails` table in table order, with distinct ids as its invariant.
`DbThreadRepository` holds `rows` and the `autoIncrement` counter. The
handler's effect on both tables is the function `Ingest` over a `Tables`
value. `Invoke` is proved to produce exactly the state `Ingest` describes.
The lemmas about `Ingest` carry the handler's properties.

ThreadItem objects are represented by their position in the index. The
reply list of item `p` is `links.replies[p]`, a sequence of positions. An
item that is attached to a parent and later gets replies of its own is
therefore the same item in both places, as with the shared `ThreadItem`
objects `getThreadView` builds.

PHP truthiness is explicit. `Truthy` treats `null`, `""` and `"0"` as
"no reply". A thread id of 0 from `findBySubject` means "no thread". PHP
arrays keep keys in insertion order, and assigning to an existing key
replaces its value in place. `Put` models that.

Modules: `Wrappers` (Option), `Emails` (the row type and the queries on the
`emails` table), `ThreadView` (the index and linking steps and their
properties), `EmailStore` (the `EmailRepository` class), `ThreadStore` (the
`DbThreadRepository` class), `Ingestion` (the handler).

## Behaviour of the code worth knowing

- `threads.subject` has no unique constraint
  (`src/Application/Database/SchemaDefinition.php:36`), and `create` does not
  look for an existing subject. `CreateTwice` shows two threads with one
  subject. When invocations are atomic, the handler's find-before-create
  still keeps subjects distinct (`IngestKeepsSubjectsDistinct`).
- `add` inserts without checking. A duplicate id violates the primary key on
  `emails.id`, and the database error reaches the caller. The handler's guard
  against duplicates is `contains`, not `add`.
- The thread tree is keyed by `imapId ?? id`. A later email with the same key
  replaces the earlier item in its slot (`IndexByKeyLast`, `SameKeyExample`).
- The view has no cycle check. An email replying to its own key is attached
  to itself and is reachable from no root (`SelfReplyExample`).
- The handler's insert leaves `imapId` and `inReplyTo` NULL. A thread made
  only of handler-inserted rows is therefore flat: every item is a root
  (`FlatWithoutReplies`).
- Roots are guaranteed to come in date order when the fetched rows have
  distinct keys (`RootsByDate`). When a later row takes an earlier row's
  slot through a shared `imapId`, a root can precede an earlier-dated one
  (`RootsByDateNeedsDistinctKeys`).

## Model

| member | source | states |
|---|---|---|
| `Emails.CountWithId` | src/Email/EmailRepository.php:25 | `COUNT(id) WHERE id = ?` equals the number of row positions carrying that id |
| `Emails.ContainsId` | src/Email/EmailRepository.php:23-26 | the count is positive exactly when some stored row has the id |
| `Emails.CountWithIdAtMostOne` | src/Application/Database/SchemaDefinition.php:27 | under the primary key on `id` an id is counted at most once |
| `Emails.CountInThread` | src/Email/EmailRepository.php:71 | `COUNT(id) WHERE threadId = ?` equals the number of rows of that thread |
| `Emails.InThread` | src/Email/EmailRepository.php:38 | `WHERE threadId = ?` keeps exactly the rows of the thread, as many as `CountInThread` counts |
| `Emails.SortByDate` | src/Email/EmailRepository.php:39 | `ORDER BY date ASC` gives a date-ordered permutation of the rows |
| `ThreadView.PutSlots` | src/Email/EmailRepository.php:49 | assigning into the index puts the item in the key's slot; every other slot keeps its key and item, and a new key is appended at the end |
| `ThreadView.IndexByKey` | src/Email/EmailRepository.php:46-50 | the index has distinct keys and at most as many items as emails |
| `ThreadView.IndexByKeyKeys` | src/Email/EmailRepository.php:47-50 | a key is in the index exactly when some email has `imapId ?? id` equal to it |
| `ThreadView.IndexByKeyLast` | src/Email/EmailRepository.php:48-49 | each slot holds the last email with its key: a later email with the same key overwrites the earlier one |
| `ThreadView.IndexByKeyFirstAppearance` | src/Email/EmailRepository.php:47-49 | keys are in order of first appearance: an email with a later key is preceded by an email with each earlier key |
| `ThreadView.IndexByKeyDistinct` | src/Email/EmailRepository.php:47-49 | with distinct keys the index holds exactly the fetched emails, in order |
| `ThreadView.ParentOf` | src/Email/EmailRepository.php:55-56 | an item has a parent exactly when its `inReplyTo` is truthy and names an indexed key, and the parent is the item with that key |
| `ThreadView.LinkFirstRoots` | src/Email/EmailRepository.php:54-60 | after the first n items, an item is a root exactly when it was visited and has no parent |
| `ThreadView.LinkFirstReplies` | src/Email/EmailRepository.php:54-58 | after the first n items, an item is in p's reply list exactly when it was visited and p is its parent |
| `ThreadView.LinkFirstOrdered` | src/Email/EmailRepository.php:54-60 | roots and reply lists are strictly increasing and hold only visited items |
| `ThreadView.LinkFirstPartition` | src/Email/EmailRepository.php:54-61 | the roots and all reply lists together hold every visited item exactly once |
| `ThreadView.RootsExactly` | src/Email/EmailRepository.php:55-59 | an item is a root exactly when its `inReplyTo` is falsy or names a key absent from the index |
| `ThreadView.RepliesExactly` | src/Email/EmailRepository.php:55-57 | an item is a reply of p exactly when its `inReplyTo` is truthy and equals p's key |
| `ThreadView.PlacedExactlyOnce` | src/Email/EmailRepository.php:54-61 | every indexed item occurs once across roots and reply lists, and nothing else occurs |
| `ThreadView.IndexOrder` | src/Email/EmailRepository.php:53-63 | roots, and each item's replies, come in index order |
| `ThreadView.RootsByDate` | src/Email/EmailRepository.php:39-63 | with distinct keys, roots come in ascending date order of the fetched rows |
| `ThreadView.RootsByDateNeedsDistinctKeys` | src/Email/EmailRepository.php:47-59 | with a repeated `imapId ?? id` key, date-ordered rows with distinct ids can give roots out of date order: rows 1 (`imapId` a, date 1), 2 (date 2) and 3 (`imapId` a, date 3) give roots 3 then 2 |
| `ThreadView.AllRootsWithoutReplies` | src/Email/EmailRepository.php:55-59 | with no truthy `inReplyTo`, the roots are all items in index order |
| `ThreadView.FlatWithoutReplies` | src/Email/EmailRepository.php:47-61 | fetched rows without a truthy `inReplyTo` give a flat view |
| `ThreadView.ReplyTreeExample` | src/Email/EmailRepository.php:44-63 | A; B replies to A; C to B; D to A: one root A with replies B then D, and B's reply C |
| `ThreadView.DanglingAndFalsyExample` | src/Email/EmailRepository.php:56-59 | a reply to `"0"` and a reply to an absent key both become roots |
| `ThreadView.SelfReplyExample` | src/Email/EmailRepository.php:55-57 | an email replying to its own key is attached to itself and there is no root |
| `ThreadView.SameKeyExample` | src/Email/EmailRepository.php:48-49 | two emails with one `imapId` leave one slot holding the later email |
| `EmailStore.WithContent` | src/Email/EmailRepository.php:111-113 | only `content` changes, only in rows with the id, and it becomes the new content |
| `EmailStore.EmailRepository.Contains` | src/Email/EmailRepository.php:23-26 | true exactly when some stored row has the id |
| `EmailStore.EmailRepository.GetThreadCount` | src/Email/EmailRepository.php:69-72 | the number of stored rows whose `threadId` is the given one |
| `EmailStore.EmailRepository.Add` | src/Email/EmailRepository.php:82-107 | appends the row unless its id is stored, which fails with the table unchanged; afterwards the id is contained |
| `EmailStore.EmailRepository.UpdateContent` | src/Email/EmailRepository.php:109-114 | the new table is the old one with the content of the id's row replaced, the key invariant kept |
| `EmailStore.EmailRepository.GetThreadView` | src/Email/EmailRepository.php:33-64 | fetches a date-ordered permutation of the thread's rows, as many as `getThreadCount`, then indexes and links them |
| `EmailStore.IndexEmails` | src/Email/EmailRepository.php:44-50 | the first loop builds exactly the index `IndexByKey` describes |
| `EmailStore.LinkReplies` | src/Email/EmailRepository.php:52-61 | the second loop builds exactly the links `Link` describes |
| `ThreadStore.FindId` | src/Domain/Thread/DbThreadRepository.php:23-28 | 0 exactly when no row has the subject, otherwise the id of a row with that subject |
| `ThreadStore.DbThreadRepository.FindBySubject` | src/Domain/Thread/DbThreadRepository.php:23-28 | 0 exactly when no thread has the subject, otherwise the id of a thread with it |
| `ThreadStore.DbThreadRepository.Create` | src/Domain/Thread/DbThreadRepository.php:30-37 | appends one row with the subject and a fresh nonzero autoincrement id, and the subject is then found |
| `ThreadStore.CreateTwice` | src/Domain/Thread/DbThreadRepository.php:30-37 | creating one subject twice on any valid repository appends two rows with that subject and distinct ids |
| `Ingestion.Ingest` | src/Domain/Command/Handler/ReceiveEmailHandler.php:57-90 | a stored id leaves both tables unchanged; otherwise exactly one row with the id, the original subject, the raw text and `parse(text)` is appended; its thread has subject `sanitize(subject)`; a thread is created (at most one) exactly when `findBySubject` gave 0, else the found id is reused |
| `Ingestion.IngestIdempotent` | src/Domain/Command/Handler/ReceiveEmailHandler.php:62-89 | receiving an email twice leaves the same tables as receiving it once |
| `Ingestion.IngestOneRowPerId` | src/Domain/Command/Handler/ReceiveEmailHandler.php:62-89 | afterwards exactly one row carries the email's id |
| `Ingestion.IngestKeepsSubjectsDistinct` | src/Domain/Command/Handler/ReceiveEmailHandler.php:66-73 | if no two threads share a subject before, none do after |
| `Ingestion.IngestFindsOwnThread` | src/Domain/Command/Handler/ReceiveEmailHandler.php:66-80 | after a new email is filed, `findBySubject` on its sanitized subject returns the thread it was filed under |
| `Ingestion.SameSubjectSameThread` | src/Domain/Command/Handler/ReceiveEmailHandler.php:66-80 | two new emails whose subjects sanitize alike land in the same thread, with at most one thread created |
| `Ingestion.ReceiveEmailHandler.Invoke` | src/Domain/Command/Handler/ReceiveEmailHandler.php:57-90 | the new state of both repositories is `Ingest` of the old state, and both invariants hold |

## Left out

- SQL and DBAL: the tables are sequences in memory. Connection and transaction failures are not modelled.
- Concurrency: each handler invocation is atomic. The races between `contains` and the insert, and between `findBySubject` and `create`, are not modelled.
- Row hydration (`createEmail`, `DateTimeImmutable` parsing): rows are values and dates are integers.
- Read status: the `user_emails_read` LEFT JOIN and `markAsRead` are per-user presentation. The join can return an email's row once per reader; the model fetches each row once.
- `findAll`: it only lists and hydrates every row.
- `EmailContentParser` and `EmailSubjectParser` are not part of this model. `parse` and `sanitize` are function-valued fields of the handler, with no properties assumed.
- `ThreadItem` and `Email` are not part of this model. `addReply` is assumed to append to the end of the reply list.
- The `ReceiveEmail` command wrapper: `Invoke` takes the received email directly. The handler returns nothing, as in the source.
- Acyclicity: the view has no cycle check, and no acyclicity or reachability is claimed.
- Schema DDL: only the primary key on `emails.id` and the autoincrement `threads.id` are used. Its other columns do not match the inserted ones.
- PHP array key normalisation turns canonical integer strings into integer keys. It is injective, so key equality is string equality here.
- Integer widths: thread ids and the autoincrement counter are unbounded.
- `EmailStore.EmailRepository.GetThreadView`: the database fixes no order for equal dates. The contract admits any date-ordered permutation of the thread's rows. The body picks one.
- The handler's repository: the handler depends on `Externals\Domain\Email\EmailRepository`, which is not part of this model. It is assumed to query the same `emails` table as `Externals\Email\EmailRepository`, whose `contains` and `add` the model uses.
- `EmailStore.EmailRepository.Add`: the database's primary-key exception for a duplicate id is modelled as the result `DuplicateId`, with the table unchanged. Exceptions are not modelled.
- String comparison in SQL: `WHERE id = ?`, `WHERE subject = ?` and the primary key on `emails.id` are modelled as exact string equality. Under a case-insensitive collation, or one that ignores trailing spaces, the database would treat more ids as one and more subjects as one. The dedup check and thread reuse would then merge accordingly.
- `ThreadStore.DbThreadRepository.FindBySubject`: without `ORDER BY` the database may return any matching row. The contract promises only "some row with the subject"; the body returns the first in table order.
- Wiring and transport: DI configuration, IMAP and the front controller.
