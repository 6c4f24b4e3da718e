# Like request handler — a verified Dafny model

This project models `LikeController`, the request handler of the Like subsystem of a
small social-content application. A Like records that a User approves of a Post or
of a Comment. The handler does three things:

- **Insert.** It turns a request carrying raw ids into a `Like`. It copies the
  request's id. It resolves the post, the comment and the author independently
  against their tables. A lookup that fails, because the id is null or no row has
  it, leaves that association absent instead of failing the request. It stamps the
  creation time and hands the Like to the Like store.
- **Read.** It projects stored Likes into the id-only view `LikeBuilt`, one view per
  Like and in the same order. This covers the full list, the lists by user, by post
  and by comment, and the point read by id.
- **Delete.** It looks up the Like under the request's id and deletes what it found.

Files:

- `likes.dfy` (module `Likes`) holds the values. These are `User`, `Post`,
  `Comment`, `Like` and `LikeBuilt`, and `Option` for a reference that may be null.
  It also holds the pure functions that specify the handler: `Build` (the
  projection), `Resolve` (a lookup whose failure becomes absence), and `NewLike`
  (the Like an insert builds). Last come the functions on the Like table's contents
  (`FindLike`, `Matching`, `Without`) and the lemmas about all of these.
- `stores.dfy` (module `Stores`) holds the collaborators as classes. `EntityStore<E>`
  stands for the post, comment and user DAOs, each a `map<int, E>` read by
  `FindById`, which throws exactly when the id is null or missing. `LikeStore` stands
  for the LikeService and the Like table: a `seq<Like>` in store order, whose
  `Valid()` invariant is that ids are unique (the primary key).
- `controller.dfy` (module `LikeControl`) holds the `LikeController` class. Its
  methods are the handlers. The list handlers share the projection loop
  `BuildEach`. `Client` is a caller that runs an insert, read and delete scenario
  through the contracts alone.

The clock reading that `insertLike` takes is the parameter `now`. The DAOs and the
service, which the source looks up from a Spring application context, are fields of
the controller object given to its constructor.

The model keeps three behaviours of the code:

- `insertLike` replies with the string `"inserted"` (LikeController.java:178).
- The new Like's id is the one the caller sent (LikeController.java:159).
- The post and the comment are resolved independently, so a Like may hold both (LikeController.java:160-169).

The LikeService behind the controller is not part of this model. The functions
`FindLike` and `Matching` in `likes.dfy` specify what its point lookup and its
by-user, by-post and by-comment lists return. The methods of `LikeStore` are its
interface as the controller calls it, and each is specified by one of those functions.

## Model

| member | source | states |
|---|---|---|
| `Likes.Build` | src/main/java/com/m3/controller/LikeController.java:81-146 | the projection carries the Like's id and creation time over, and each association becomes its entity's id when present and is absent when absent; with `BuildResolveRoundTrip`, nothing is lost for a Like whose references are live |
| `Likes.Resolve` | src/main/java/com/m3/controller/LikeController.java:160-174 | a guarded lookup yields the row stored under the id exactly when the id is non-null and present, and absence otherwise; it never fails |
| `Likes.NewLike` | src/main/java/com/m3/controller/LikeController.java:158-175 | the built Like has the request's id; its post, comment and author are each the row under the requested id when that lookup succeeds and absent otherwise, each decided on its own; its creation time is the clock reading, whatever date the request carried |
| `Likes.InsertedView` | src/main/java/com/m3/controller/LikeController.java:158-175 | over tables keyed by primary key, the view of an inserted Like echoes each requested post, comment and author id exactly when that table holds it, echoes the request id, and shows the clock reading as its date |
| `Likes.NewLikeIsLive` | src/main/java/com/m3/controller/LikeController.java:160-174 | every reference of a newly built Like is absent or is the row its table holds under that reference's id; it never points at a missing id |
| `Likes.BuildResolveRoundTrip` | src/main/java/com/m3/controller/LikeController.java:158-174 | resolving the view of a Like with live references against the same tables rebuilds that Like, apart from the creation time; the projection loses no association |
| `Likes.FindLike` | src/main/java/com/m3/controller/LikeController.java:95 | the point lookup finds a Like iff some stored Like has the id, and what it finds is stored and has that id |
| `Likes.FindLikeUnique` | src/main/java/com/m3/controller/LikeController.java:95 | under the primary key, the point lookup for a stored Like's id yields exactly that Like |
| `Likes.Matching` | src/main/java/com/m3/controller/LikeController.java:109 | a by-user, by-post or by-comment list is no longer than the table, and each listed Like's chosen association has the requested id |
| `Likes.MatchingExactly` | src/main/java/com/m3/controller/LikeController.java:109-143 | a Like is listed by association id iff it is stored and its chosen association has that id |
| `Likes.MatchingAppend` | src/main/java/com/m3/controller/LikeController.java:109-143 | lists keep store order: a newly appended Like joins the end of exactly the lists it matches |
| `Likes.Without` | src/main/java/com/m3/controller/LikeController.java:189 | after deleting an id, a Like is present iff it was present before and has a different id |
| `Likes.WithoutAbsent` | src/main/java/com/m3/controller/LikeController.java:188-189 | deleting an id that no Like has changes nothing |
| `Likes.WithoutRemovesOne` | src/main/java/com/m3/controller/LikeController.java:189 | under the primary key, deleting the id of the Like at position i removes that Like and keeps every other Like in order |
| `Likes.WithoutKeepsUnique` | src/main/java/com/m3/controller/LikeController.java:189 | deletion preserves the primary key |
| `Likes.WithoutKeepsStamps` | src/main/java/com/m3/controller/LikeController.java:189 | deletion keeps every remaining Like's creation time |
| `Likes.DeleteIdempotent` | src/main/java/com/m3/controller/LikeController.java:187-190 | deleting the same id twice leaves the table as deleting it once |
| `Stores.EntityStore.FindById` | src/main/java/com/m3/controller/LikeController.java:161-171 | each of the three DAO lookups returns the row under the id when the id is non-null and present, and throws otherwise; caught, its outcome is exactly `Resolve` |
| `Stores.LikeStore.GetAllLikes` | src/main/java/com/m3/controller/LikeController.java:78 | the service's full list is the table in store order |
| `Stores.LikeStore.GetLikeById` | src/main/java/com/m3/controller/LikeController.java:95 | the service yields a Like iff one has the id, and then the unique stored Like with that id |
| `Stores.LikeStore.GetAllUserLikes` | src/main/java/com/m3/controller/LikeController.java:109 | the service's by-user list is the stored Likes whose author has the id, in store order |
| `Stores.LikeStore.GetAllPostLikes` | src/main/java/com/m3/controller/LikeController.java:126 | the service's by-post list is the stored Likes on that post, in store order |
| `Stores.LikeStore.GetAllCommentLikes` | src/main/java/com/m3/controller/LikeController.java:143 | the service's by-comment list is the stored Likes on that comment, in store order |
| `Stores.LikeStore.InsertLike` | src/main/java/com/m3/controller/LikeController.java:176 | the store appends exactly the given Like when its id is free, and otherwise refuses it and changes nothing; the primary key holds afterwards |
| `Stores.LikeStore.DeleteLike` | src/main/java/com/m3/controller/LikeController.java:189 | the store removes the row with the given Like's id; given no Like, nothing changes; the primary key holds afterwards |
| `LikeControl.BuildEach` | src/main/java/com/m3/controller/LikeController.java:79-82 | the projection loop returns a list of the same length as its input, whose element i is the view of Like i |
| `LikeControl.LikeController.GetAll` | src/main/java/com/m3/controller/LikeController.java:77-84 | getAll returns one view per stored Like, in store order, and each view carries a creation time |
| `LikeControl.LikeController.GetById` | src/main/java/com/m3/controller/LikeController.java:94-98 | getById returns a view iff a Like has the id, and then the view of that Like |
| `LikeControl.LikeController.GetAllLikesByUser` | src/main/java/com/m3/controller/LikeController.java:108-115 | the views of the by-user list, same length and order, each with that author id |
| `LikeControl.LikeController.GetAllLikesByPost` | src/main/java/com/m3/controller/LikeController.java:125-132 | the views of the by-post list, same length and order, each with that post id |
| `LikeControl.LikeController.GetAllLikesByComment` | src/main/java/com/m3/controller/LikeController.java:142-149 | the views of the by-comment list, same length and order, each with that comment id |
| `LikeControl.LikeController.InsertLike` | src/main/java/com/m3/controller/LikeController.java:157-179 | insertLike hands exactly one Like to the store: the one built from the request and the clock reading; it replies "inserted" unless the store refuses the id; the post, comment and user tables are unchanged; the table invariants hold afterwards |
| `LikeControl.LikeController.DeleteLike` | src/main/java/com/m3/controller/LikeController.java:187-191 | deleteLike removes the Like found under the request's id, or nothing when none is found; it keeps every other Like in order and always replies "deleted" |

## Left out

- Spring wiring is not modelled. This covers the application context and `getBean` lookups (LikeController.java:43-47), the `getLs`/`setLs` accessors and the HTTP mapping annotations. The collaborators are given to the controller's constructor instead.
- `LocalDateTime.now()` is replaced by the parameter `now`. Wall-clock behaviour cannot be verified.
- The internals of LikeService, the Like DAO, PostDao, UserDao and CommentDao are not part of this model. The model assumes the following about them:
  - The Like table has a unique primary key.
  - Inserting an id that is already taken is a store failure. It propagates out of `insertLike` as `StoreFailure`, so `"inserted"` is not returned.
  - The by-user, by-post and by-comment queries filter the table by the association's id and keep store order.
  - Deleting removes the row with the given Like's id.
  - `getLikeById` returns null, and does not throw, when no Like has the id.
  - `getAllLikes` returns the whole table, in store order.
  - Other store faults, such as an unavailable database, are not modelled.
- LikeControl.LikeController.GetById: under the assumption that `getLikeById` returns null for a missing id, the source then builds `new LikeBuilt(null)`, whose behaviour is not shown. The model returns no view (`None`), the not-found answer. If the service threw instead, the handler would pass the exception on; that is not modelled.
- LikeControl.LikeController.DeleteLike: under the same assumption, a missing id makes the source pass null to the service's delete, whose behaviour is not shown. The model treats it as a successful no-op that replies "deleted". If the lookup threw instead, the handler would never reach the delete or the reply; that is not modelled.
- The request id is modelled as a plain integer. A request with a null id is not modelled, because the types of the `Like` and `LikeBuilt` id fields are not shown.
- The model's ids are a number or absent. A malformed id is assumed to be rejected by request binding. If one reached a lookup, its try/catch (LikeController.java:160-174) would turn it into absence, the same as `None`.
- The internals of `Like` and `LikeBuilt` are not shown. `LikeBuilt` is modelled as an id-only record: id, author id, post id, comment id and date. The columns of User, Post and Comment other than the id are opaque sequences.
- PostController.java is not modelled. It only delegates to a service that is not part of this model, using the same order-preserving projection loop.
- Concurrent requests are not modelled. Nothing in the handler synchronises.
