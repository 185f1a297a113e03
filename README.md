# film_service in Dafny

A model of the core of *film_service*, a Spring Boot service for films, their reviews and likes,
and a social graph of users (friend requests, friends, followers and a blacklist). The model
covers four parts:

- **The friendship state machine.** Friendship records `(id, user, friend, status, createdAt,
  updatedAt)` live in a table kept by `Repositories.FriendshipRepository`. The operations
  `sendRequest`, both `acceptRequest` overloads, `addToBlackList`, `removeFromFriends` and
  `removeFromBlackList` are written as pure step functions in `FriendshipMachine`.
  `FriendshipServices.FriendshipService` runs the same operations imperatively on the
  repository and is proved to agree with those step functions. The invariant is:
  - record ids are unique and below the next id;
  - there is at most one record per unordered pair of users.
  
  Every operation is proved to preserve the invariant and to leave every record's creation time
  untouched. The friends, followers, following, blacklist and common-friends queries are set
  comprehensions over the table (`Friendships`).
- **The incremental rating aggregator.** Ratings are integers counting tenths of a point. The
  `BigDecimal` division to one digit with `HALF_UP` is `Rating.RoundHalfUpDiv` on signed
  numerators. Two properties are proved to determine that quotient completely:
  - it is a nearest integer quotient;
  - on a tie it is the one of larger magnitude.
  
  `ReviewServices.FilmReviewService` adds and deletes reviews and updates the film's rating
  incrementally. While the stored rating is the exact mean of the reviews, the incremental
  updates are proved to equal a full recomputation.
- **User and film bookkeeping.** The entities whose fields the services update in place are
  classes in `Entities`: users, films and genres. Associations hold ids, because the entities
  compare by id. The user service (`UserServices`) does registration, partial update and
  deletion, and the like service keeps likes on both sides. The authentication service's role
  and enabled-flag changes are in `Authentications`. So are its access checks, which take the
  caller's authentication explicitly.
- **Film search and cache keys.** `FilmServices.FilterCriteria` chooses which film predicates
  (`FilmSpecifications`) to conjoin, and it rejects a reversed year range. `FilmQueries` holds
  the popularity ordering and the rating-threshold query. `FilmServices.FilmService` holds the
  partial update and the deletion of a film. `KeyGenerators` has the two cache key builders. For
  each of them it proves:
  - the layout of the key;
  - that the film-filter key does not depend on the order of its list arguments;
  - that a user-list key can be split back into its four fields, so that different requests get
    different keys.

Error paths are values: `Result<T>` is `Ok(value)` or `Err(error)`, and `Outcome` is `Done` or
`Fail(error)`. The error kinds name the exceptions the source throws:
- `NotFound`;
- `AlreadyExists`;
- `IllegalState`;
- `AccessDeny`;
- `Unauthorized`;
- `BadRequest`, which is the plain `RuntimeException` of `acceptRequest`;
- `NullPointer`, which only the as-written members of the findings use.

A transactional operation that fails is rolled back, so every modelled failure leaves the
stores unchanged, even where the source has already written a field before its check fails
(`updateUser` sets the login before it checks the email). Three inputs come from outside and are parameters:
- the clock: an `Instant` argument `now`;
- the caller's security context: an `Authentication` value;
- the password encoder: a function-valued field of the user service.

## Model

| member | source | states |
|---|---|---|
| Merging.Merged | src/main/java/com/example/films/service/UserService.java:110-119 | a partial-update field takes the given value when one is given and otherwise keeps the stored value |
| Merging.MergedOptional | src/main/java/com/example/films/service/films/FilmService.java:90-93 | the same merge for a field that may be unset: a given value replaces, an absent one keeps the stored value, including an unset one |
| Rating.RoundHalfUpDiv | src/main/java/com/example/films/service/films/FilmReviewService.java:53-55 | the scale-1 HALF_UP division: the quotient is within half a unit of a/d, a tie goes away from zero, and the sign follows the numerator |
| Rating.RoundHalfUpDivUnique | src/main/java/com/example/films/service/films/FilmReviewService.java:53-55 | any integer that is a nearest quotient and breaks ties away from zero equals RoundHalfUpDiv, so HALF_UP is fully specified |
| Rating.AddedRatingInRange | src/main/java/com/example/films/service/films/FilmReviewService.java:51-57 | adding a review in [0.0, 10.0] to a rating in [0.0, 10.0] yields a rating in [0.0, 10.0] |
| Rating.AddedRating | src/main/java/com/example/films/service/films/FilmReviewService.java:51-57 | the incremental rating after an add stays within the declared rating bounds when its inputs do |
| Rating.AddedRatingNearest | src/main/java/com/example/films/service/films/FilmReviewService.java:53-55 | the added rating is the tenth nearest to the exact weighted mean (R(n-1)+x)/n |
| Rating.DeletedRatingNearest | src/main/java/com/example/films/service/films/FilmReviewService.java:113-115 | the rating after a delete as written is the tenth nearest to (Rn-x)/(n-1), whatever its sign |
| Rating.Clamp | src/main/java/com/example/films/model/entity/Film.java:34-37 | the result lies in [0.0, 10.0], and a value already in range is left alone |
| Rating.DeletedRating | src/main/java/com/example/films/service/films/FilmReviewService.java:111-117 | the rating after a delete always lies in the declared range and equals the as-written value whenever that is in range |
| Rating.UnitTestExamples | src/test/java/com/example/films/service/films/FilmReviewServiceTest.java:91-177 | 5.0 over two reviews plus a 9 gives 6.3, and 5.0 over three reviews minus the 9 gives 3.0 |
| Rating.DeletedRatingLeavesRange | src/main/java/com/example/films/service/films/FilmReviewService.java:113-115 | reviews 0.0, 0.0, 0.1 keep the rating at 0.0, and deleting the 0.1 review then computes -0.1 as written, which the corrected rule keeps at 0.0 |
| Rating.AddedRatingIsMean | src/main/java/com/example/films/service/films/FilmReviewService.java:37-60 | when the stored rating is the exact mean of the earlier reviews, the incremental add equals the rounded mean of all reviews |
| Rating.DeletedRatingIsMean | src/main/java/com/example/films/service/films/FilmReviewService.java:111-117 | when the stored rating is the exact mean of all reviews, the incremental delete equals the rounded mean of the remaining ones |
| Rating.SumInRange | src/main/java/com/example/films/model/entity/Film.java:34-37 | the sum of ratings within the declared bounds is at least 0 and at most 10.0 per rating |
| Rating.MeanInRange | src/main/java/com/example/films/model/entity/Film.java:34-37 | the rounded mean of ratings within the declared bounds is within those bounds |
| Rating.DeletedRatingIsMeanOfRest | src/main/java/com/example/films/service/films/FilmReviewService.java:111-117 | with every review in range and the stored rating exact, the clamped rating after a delete equals the rounded mean of the remaining reviews, so the clamp never changes that result |
| Reviews.ReviewsOfFilm | src/main/java/com/example/films/repository/ReviewRepository.java:28 | findAllByFilmId holds exactly the reviews of that film |
| Reviews.WithoutUserReviews | src/main/java/com/example/films/repository/ReviewRepository.java:20-22 | deleteAllByUserId removes exactly that user's reviews and keeps every other review |
| Reviews.WithoutFilmReviews | src/main/java/com/example/films/repository/ReviewRepository.java:24-26 | deleteAllByFilmId removes exactly that film's reviews and keeps every other review |
| Reviews.WithoutReview | src/main/java/com/example/films/service/films/FilmReviewService.java:119 | deleteById removes exactly the review with that id |
| Reviews.FindByUserAndFilm | src/main/java/com/example/films/repository/ReviewRepository.java:18 | a found review is stored and matches both user and film, and none is found exactly when no stored review matches both |
| Reviews.FindReview | src/main/java/com/example/films/service/films/FilmReviewService.java:93 | findById finds a stored review with that id, and nothing exactly when no review has it |
| Reviews.WhereValid | src/main/java/com/example/films/repository/ReviewRepository.java:20-26 | the bulk deletes keep review ids unique and keep one review per user and film |
| Reviews.AppendValid | src/main/java/com/example/films/service/films/FilmReviewService.java:70-85 | saving a review of a pair that has none, under the next id, keeps the review table's invariant |
| Reviews.DeletingOnlyReview | src/main/java/com/example/films/service/films/FilmReviewService.java:104-110 | deleting a film's only review leaves the film without reviews |
| ReviewServices.CalculatedRating | src/main/java/com/example/films/service/films/FilmReviewService.java:37-60 | a film without a rating takes the new review's rating; otherwise the rating is the incremental mean and stays in range |
| ReviewServices.RatingAfterDeletion | src/main/java/com/example/films/service/films/FilmReviewService.java:99-117 | the rating is cleared exactly when the last review goes; otherwise it is the range-kept incremental update |
| ReviewServices.ReviewServiceExamples | src/test/java/com/example/films/service/films/FilmReviewServiceTest.java:91-190 | 6.3 after adding a 9 to 5.0 over two, the review's rating on the first review, 3.0 after deleting, and no rating after the last review goes |
| ReviewServices.FilmReviewService.AddReview | src/main/java/com/example/films/service/films/FilmReviewService.java:63-89 | fails with IllegalState, writing nothing, exactly when the ids disagree, a review of the pair exists, or the user or film is unknown; otherwise appends the review under the next id and sets the recalculated rating |
| ReviewServices.FilmReviewService.CalculateRating | src/main/java/com/example/films/service/films/FilmReviewService.java:37-60 | the film's rating becomes the calculated rating for the current review count, and no other film changes |
| ReviewServices.FilmReviewService.DeleteReview | src/main/java/com/example/films/service/films/FilmReviewService.java:92-121 | NotFound for an unknown review and IllegalState for the wrong user or film, both without change; otherwise the review goes and the rating follows RatingAfterDeletion, keeping "rated while reviewed" |
| Entities.User.constructor | src/main/java/com/example/films/model/entity/User.java:44-65 | a new user carries the given fields, is enabled and has no likes |
| Entities.User.LikeFilm | src/main/java/com/example/films/model/entity/User.java:74-77 | both sides of the like association gain the pair, idempotently |
| Entities.User.UnlikeFilm | src/main/java/com/example/films/model/entity/User.java:79-82 | both sides lose the pair; every other like stays |
| Entities.User.MakeAdmin | src/main/java/com/example/films/model/entity/User.java:84-86 | ADMIN is added and the existing roles are kept |
| Entities.User.MakeUser | src/main/java/com/example/films/model/entity/User.java:88-90 | the roles become exactly USER |
| Entities.User.SetEnabled | src/main/java/com/example/films/model/entity/User.java:47 | only the enabled flag changes, to the given value |
| Entities.Film.constructor | src/main/java/com/example/films/model/entity/Film.java:34-53 | a new film carries the given fields, has no rating, no likes and no genres |
| Entities.Film.SetGenres | src/main/java/com/example/films/model/entity/Film.java:55-60 | the genres become exactly the given ones, and each given genre then lists the film and keeps its other films |
| Entities.Genre.constructor | src/main/java/com/example/films/model/entity/Genre.java:20-30 | a new genre has the given id and name and no films |
| Entities.Genre.AddFilm | src/main/java/com/example/films/model/entity/Genre.java:32-34 | the film joins the genre's films, the earlier films stay, and adding twice changes nothing |
| Repositories.FriendshipRepository.Update | src/main/java/com/example/films/service/FriendshipService.java:146-148 | saving a managed record replaces its row in place and leaves the id counter |
| Repositories.FriendshipRepository.Insert | src/main/java/com/example/films/service/FriendshipService.java:88-92 | saving a new record appends it under the next id, created at the current instant and never updated |
| Repositories.FriendshipRepository.Delete | src/main/java/com/example/films/service/FriendshipService.java:192 | deleting a record removes exactly its row |
| Repositories.FriendshipRepository.DeleteMentioning | src/main/java/com/example/films/model/entity/User.java:52-56 | the cascade of a user's deletion removes exactly the records naming that user |
| Repositories.ReviewRepository.Save | src/main/java/com/example/films/service/films/FilmReviewService.java:84-85 | saving a new review appends it under the next id |
| Repositories.ReviewRepository.DeleteById | src/main/java/com/example/films/service/films/FilmReviewService.java:119 | the table becomes WithoutReview of the old table |
| Repositories.ReviewRepository.DeleteAllByUserId | src/main/java/com/example/films/repository/ReviewRepository.java:20-22 | the table becomes WithoutUserReviews of the old table |
| Repositories.ReviewRepository.DeleteAllByFilmId | src/main/java/com/example/films/repository/ReviewRepository.java:24-26 | the table becomes WithoutFilmReviews of the old table |
| Repositories.UserRepository.Add | src/main/java/com/example/films/service/UserService.java:58 | saving a new user stores it under the next id |
| Repositories.UserRepository.Delete | src/main/java/com/example/films/service/UserService.java:84 | deleting a user removes exactly that id |
| Repositories.FilmRepository.DeleteById | src/main/java/com/example/films/service/films/FilmService.java:115 | deleting a film removes exactly that id |
| Authentications.IsCurrentUser | src/main/java/com/example/films/service/AuthenticationService.java:70-80 | Unauthorized exactly when nobody is signed in, AccessDeny exactly when someone else is, true exactly for the user in question |
| Authentications.IsAdmin | src/main/java/com/example/films/service/AuthenticationService.java:82-93 | Unauthorized exactly when nobody is signed in; passes exactly when the caller holds ADMIN; AccessDeny otherwise |
| Authentications.IsCurrentUserOrAdmin | src/main/java/com/example/films/service/AuthenticationService.java:95-108 | passes exactly when IsCurrentUser or IsAdmin would pass; Unauthorized for nobody, AccessDeny otherwise |
| Authentications.IsBlockedByCurrentUser | src/main/java/com/example/films/service/AuthenticationService.java:111-126 | an anonymous caller passes; a denial is always AccessDeny, and happens exactly when the target has blocked the caller |
| Authentications.BlockDecidesAccess | src/main/java/com/example/films/service/AuthenticationService.java:117-123 | the record the lookup finds is the only one linking the pair, and a block by the target names the caller as its friend |
| Authentications.AuthenticationService.MakeAdmin | src/main/java/com/example/films/service/AuthenticationService.java:128-131 | NotFound for an unknown id; otherwise that user gains ADMIN and no other user's roles change |
| Authentications.AuthenticationService.MakeUser | src/main/java/com/example/films/service/AuthenticationService.java:133-136 | NotFound for an unknown id; otherwise that user's roles become exactly USER and no one else's change |
| Authentications.AuthenticationService.SetEnabled | src/main/java/com/example/films/service/AuthenticationService.java:138-146 | NotFound for an unknown id; otherwise only that user's enabled flag changes |
| Authentications.BlockClosesOneDirection | src/main/java/com/example/films/service/AuthenticationService.java:111-126 | after b blocks a, a is denied b's data while b still sees a's |
| Friendships.FindIndex | src/main/java/com/example/films/repository/FriendshipRepository.java:19-21 | the lookup finds the first record linking the pair in either orientation, and nothing exactly when no record links them |
| Friendships.FindByPair | src/main/java/com/example/films/repository/FriendshipRepository.java:19-21 | a record is found exactly when one links the pair, and the found record links it |
| Friendships.FindIndexSymmetric | src/main/java/com/example/films/repository/FriendshipRepository.java:19-21 | lookup(u, f) equals lookup(f, u) |
| Friendships.FindIndexUnique | src/main/java/com/example/films/repository/FriendshipRepository.java:19-21 | with one record per pair, the record found is the only one linking the pair |
| Friendships.FindById | src/main/java/com/example/films/repository/FriendshipRepository.java:17 | finds the record with that id, and nothing exactly when no record has it |
| Friendships.RemoveAt | src/main/java/com/example/films/service/FriendshipService.java:192 | deleting one row keeps every other row and adds none |
| Friendships.WithoutUser | src/main/java/com/example/films/model/entity/User.java:52-56 | the records left after a user's deletion are exactly those not naming the user |
| Friendships.WithoutUserUniqueIds | src/main/java/com/example/films/model/entity/User.java:52-56 | the cascade of a user's deletion keeps record ids unique |
| Friendships.WithoutUserOnePerPair | src/main/java/com/example/films/model/entity/User.java:52-56 | the cascade keeps one record per pair |
| Friendships.WithoutUserValid | src/main/java/com/example/films/model/entity/User.java:52-56 | the cascade keeps the friendship table's invariant |
| Friendships.FriendsSymmetric | src/main/java/com/example/films/repository/FriendshipRepository.java:23-27 | t is among s's friends exactly when s is among t's |
| Friendships.FollowingIsFollowers | src/main/java/com/example/films/repository/FriendshipRepository.java:29-37 | t is among those s follows exactly when s is among t's followers |
| Friendships.CommonFriendsIsIntersection | src/main/java/com/example/films/repository/FriendshipRepository.java:44-50 | the common friends are the intersection of the two ACCEPTED neighbourhoods |
| Friendships.FriendsAreNeighbours | src/main/java/com/example/films/repository/FriendshipRepository.java:23-27 | the friends list is the ACCEPTED neighbourhood without the user itself |
| Friendships.RelationsExclusive | src/main/java/com/example/films/repository/FriendshipRepository.java:23-42 | with one record per pair, a user is on at most one of s's lists: blacklist, friends, followers or following |
| Friendships.BlacklistOnlyOwnBlocks | src/main/java/com/example/films/repository/FriendshipRepository.java:39-42 | a user who blocked s is not on s's blacklist |
| FriendshipMachine.UpdateValid | src/main/java/com/example/films/service/FriendshipService.java:146-148 | replacing a record by one with the same id linking the same pair keeps the invariant |
| FriendshipMachine.InsertValid | src/main/java/com/example/films/service/FriendshipService.java:88-92 | inserting a record for an unlinked pair keeps the invariant |
| FriendshipMachine.AcceptRequestValid | src/main/java/com/example/films/service/FriendshipService.java:115-128 | acceptRequest keeps the invariant |
| FriendshipMachine.AcceptRequestByIdValid | src/main/java/com/example/films/service/FriendshipService.java:98-111 | acceptRequest by request id keeps the invariant |
| FriendshipMachine.SendRequestValid | src/main/java/com/example/films/service/FriendshipService.java:61-93 | sendRequest keeps the invariant, in particular one record per pair |
| FriendshipMachine.AddToBlackListValid | src/main/java/com/example/films/service/FriendshipService.java:132-156 | addToBlackList keeps the invariant |
| FriendshipMachine.RemoveFromFriendsValid | src/main/java/com/example/films/service/FriendshipService.java:160-175 | removeFromFriends keeps the invariant |
| FriendshipMachine.RemoveAtValid | src/main/java/com/example/films/service/FriendshipService.java:192 | deleting a record keeps the invariant |
| FriendshipMachine.RemoveFromBlackListValid | src/main/java/com/example/films/service/FriendshipService.java:180-193 | removeFromBlackList keeps the invariant |
| FriendshipMachine.SendRequestCreates | src/main/java/com/example/films/service/FriendshipService.java:88-92 | without a record for the pair, sendRequest appends exactly one REQUESTED record from the caller to the target under the next id, and the table stays valid |
| FriendshipMachine.SendRequestWhenFriends | src/main/java/com/example/films/service/FriendshipService.java:66-69 | a request between friends fails with AlreadyExists and changes nothing |
| FriendshipMachine.SendRequestWhenBlocked | src/main/java/com/example/films/service/FriendshipService.java:79-81 | a request across a block, whoever imposed it, fails with AlreadyExists and changes nothing |
| FriendshipMachine.SendRequestTwice | src/main/java/com/example/films/service/FriendshipService.java:70-72 | repeating one's own pending request fails with AlreadyExists and changes nothing |
| FriendshipMachine.SendRequestAcceptsPending | src/main/java/com/example/films/service/FriendshipService.java:73-74 | a request against the target's pending request acts exactly as acceptRequest: only status and updatedAt change and the orientation stays |
| FriendshipMachine.AcceptRequestSpec | src/main/java/com/example/films/service/FriendshipService.java:115-128 | NotFound without a record; a REQUESTED record from the friend to the user becomes ACCEPTED in place with only updatedAt changed; any other record gives BadRequest with no change |
| FriendshipMachine.AcceptRequestMakesFriends | src/main/java/com/example/films/service/FriendshipService.java:115-128 | after a successful accept the two users are on each other's friends lists |
| FriendshipMachine.BlockAdminRefused | src/main/java/com/example/films/service/FriendshipService.java:133-138 | blocking an administrator fails with IllegalState and changes nothing |
| FriendshipMachine.AddToBlackListBlocks | src/main/java/com/example/films/service/FriendshipService.java:139-155 | the pair's record then points from blocker to blocked with status BLOCKED: an existing record is turned in place, keeping id and creation time, otherwise a new one is appended under the next id; no other record changes; the target is on the blocker's blacklist |
| FriendshipMachine.RemoveFromFriendsSpec | src/main/java/com/example/films/service/FriendshipService.java:160-175 | NotFound without a record, IllegalState unless ACCEPTED; otherwise the record points from the removed friend to the remover as REQUESTED, so the removed friend becomes a follower |
| FriendshipMachine.RemoveFromBlackListSpec | src/main/java/com/example/films/service/FriendshipService.java:180-193 | NotFound without a record; a record that is not BLOCKED is left alone; the blocked side gets IllegalState; the blocker's call deletes exactly that record, keeps every other record and the id counter, and leaves the pair unlinked |
| FriendshipMachine.RemoveAtUnlinks | src/main/java/com/example/films/service/FriendshipService.java:192 | with one record per pair, deleting the pair's record leaves no record linking it |
| FriendshipMachine.UpdateKeepsCreatedAt | src/main/java/com/example/films/model/entity/Friendship.java:25 | a save that keeps the creation time of the record it replaces keeps every record's creation time |
| FriendshipMachine.InsertKeepsCreatedAt | src/main/java/com/example/films/model/entity/Friendship.java:25 | inserting a record changes no existing record's creation time |
| FriendshipMachine.RemoveAtKeepsCreatedAt | src/main/java/com/example/films/model/entity/Friendship.java:25 | deleting a record changes no remaining record's creation time |
| FriendshipMachine.AcceptAtKeepsCreatedAt | src/main/java/com/example/films/service/FriendshipService.java:117-122 | accepting changes no record's creation time |
| FriendshipMachine.SendRequestKeepsCreatedAt | src/main/java/com/example/films/service/FriendshipService.java:61-93 | sendRequest changes no record's creation time |
| FriendshipMachine.AcceptRequestKeepsCreatedAt | src/main/java/com/example/films/service/FriendshipService.java:115-128 | acceptRequest changes no record's creation time |
| FriendshipMachine.AcceptRequestByIdKeepsCreatedAt | src/main/java/com/example/films/service/FriendshipService.java:98-111 | acceptRequest by id changes no record's creation time |
| FriendshipMachine.AddToBlackListKeepsCreatedAt | src/main/java/com/example/films/service/FriendshipService.java:139-155 | addToBlackList changes no record's creation time |
| FriendshipMachine.RemoveFromFriendsKeepsCreatedAt | src/main/java/com/example/films/service/FriendshipService.java:160-175 | removeFromFriends changes no record's creation time |
| FriendshipMachine.RemoveFromBlackListKeepsCreatedAt | src/main/java/com/example/films/service/FriendshipService.java:180-193 | removeFromBlackList changes no remaining record's creation time |
| FriendshipMachine.MutualRequestsMakeFriends | src/main/java/com/example/films/service/FriendshipService.java:61-93 | a request followed by the counter-request makes the two users friends through the first record, updated at the second instant |
| FriendshipMachine.UnfriendLeavesFollower | src/main/java/com/example/films/service/FriendshipService.java:160-175 | after unfriending, the removed friend follows the remover, and unfriending again fails with IllegalState |
| FriendshipMachine.OnlyBlockerUnblocks | src/main/java/com/example/films/service/FriendshipService.java:180-193 | after a blocks b, b cannot lift the block (IllegalState), while a can, and the record is gone |
| FriendshipServices.FriendshipService.SendRequest | src/main/java/com/example/films/service/FriendshipService.java:61-93 | the result and the new table are those of the sendRequest step, and the table stays valid |
| FriendshipServices.FriendshipService.AcceptRequest | src/main/java/com/example/films/service/FriendshipService.java:115-128 | the result and the new table are those of the acceptRequest step, and the table stays valid |
| FriendshipServices.FriendshipService.AcceptRequestById | src/main/java/com/example/films/service/FriendshipService.java:98-111 | the result and the new table are those of the acceptRequest-by-id step, and the table stays valid |
| FriendshipServices.FriendshipService.Accept | src/main/java/com/example/films/service/FriendshipService.java:117-127 | the common accept body on a found record agrees with its step function |
| FriendshipServices.FriendshipService.AddToBlackList | src/main/java/com/example/films/service/FriendshipService.java:132-156 | the result and the new table are those of the addToBlackList step, with the administrator check read from the stored roles, and the table stays valid |
| FriendshipServices.FriendshipService.RemoveFromFriends | src/main/java/com/example/films/service/FriendshipService.java:160-175 | the result and the new table are those of the removeFromFriends step, and the table stays valid |
| FriendshipServices.FriendshipService.RemoveFromBlackList | src/main/java/com/example/films/service/FriendshipService.java:180-193 | the outcome and the new table are those of the removeFromBlackList step, and the table stays valid |
| UserServices.BirthdayMergedAsWritten | src/main/java/com/example/films/service/UserService.java:105-109 | as written, the birthday step fails with a null dereference exactly when the stored birthday is unset, and otherwise merges |
| UserServices.BirthdayCounterexample | src/main/java/com/example/films/service/UserService.java:105-109 | a user without a birthday fails every update as written, while the corrected merge keeps or sets the birthday |
| UserServices.UserService.CreateUser | src/main/java/com/example/films/service/UserService.java:46-60 | AlreadyExists with nothing saved exactly when the email or login is in use; otherwise a new enabled user under the next id with the encoded password, roles exactly USER, and the login as name when none is given; credentials stay distinct |
| UserServices.UserService.UpdateUser | src/main/java/com/example/films/service/UserService.java:90-123 | NotFound for an unknown id; AlreadyExists without change exactly when a changed login or email is in use; otherwise every given field replaces the stored one, the password verbatim; no other user changes, and the user table stays valid with distinct credentials |
| UserServices.UserService.DeleteUser | src/main/java/com/example/films/service/UserService.java:78-86 | NotFound for an unknown id with nothing changed; otherwise the user's reviews, the user and every friendship naming the user go, and all tables stay valid |
| UserServices.FilmLikeService.AddLike | src/main/java/com/example/films/service/films/FilmLikeService.java:43-50 | NotFound for an unknown user, then for an unknown film, before any change; otherwise both sides gain the pair, the like association stays mirrored, and nothing else changes |
| UserServices.FilmLikeService.DeleteLike | src/main/java/com/example/films/service/films/FilmLikeService.java:52-58 | NotFound for an unknown user or film without change; otherwise both sides lose the pair and every other like stays |
| FilmSpecifications.LowerChar | src/main/java/com/example/films/specifications/FilmSpecification.java:12-15 | the lower-cased character is no Latin or Russian capital |
| FilmSpecifications.Lower | src/main/java/com/example/films/specifications/FilmSpecification.java:12-15 | lower() keeps the length and lower-cases each character |
| FilmSpecifications.LowerIdempotent | src/main/java/com/example/films/specifications/FilmSpecification.java:12-15 | lower-casing twice is lower-casing once |
| FilmSpecifications.TitleLikeIgnoresCase | src/main/java/com/example/films/specifications/FilmSpecification.java:12-15 | a query and its lower-case form match the same films; the empty query and the film's own name always match |
| FilmSpecifications.TitleLikeIgnoresNameCase | src/main/java/com/example/films/specifications/FilmSpecification.java:12-15 | whether a film matches does not depend on the case its name is written in |
| FilmSpecifications.GenresSelectUnion | src/main/java/com/example/films/specifications/FilmSpecification.java:22-24 | listing several genres selects the union of each genre's films; an empty list selects none |
| FilmSpecifications.ReleaseYearBetweenBounds | src/main/java/com/example/films/specifications/FilmSpecification.java:38-55 | the range is inclusive at both ends and one-sided when a bound is missing; a film without a release date never matches |
| FilmSpecifications.AtLeastTenths | src/main/java/com/example/films/specifications/FilmSpecification.java:57-60 | a threshold with one or no fractional digit compares a rating directly in tenths |
| FilmSpecifications.SatisfiesOne | src/main/java/com/example/films/service/films/FilmService.java:128-131 | a specification of one predicate admits exactly the films that predicate admits |
| FilmQueries.Select | src/main/java/com/example/films/service/films/FilmService.java:150 | findAll(spec) holds exactly the stored films that satisfy every predicate |
| FilmQueries.WithRatingAtLeast | src/main/java/com/example/films/repository/FilmRepository.java:25-26 | the threshold query holds exactly the rated films at or above the threshold |
| FilmQueries.ThresholdQueryIsRatingFilter | src/main/java/com/example/films/repository/FilmRepository.java:25-26 | the threshold query returns what the filter's rating predicate alone selects, in the same order |
| FilmQueries.InsertByLikes | src/main/java/com/example/films/repository/FilmRepository.java:28-29 | placing one film keeps the list ordered by non-increasing likes and adds exactly that film |
| FilmQueries.MostPopular | src/main/java/com/example/films/repository/FilmRepository.java:28-29 | the popularity list is ordered by non-increasing likes and is a permutation of all films, those without likes included |
| FilmQueries.MostLikedFirst | src/main/java/com/example/films/repository/FilmRepository.java:28-29 | no film has more likes than the first of the popularity list |
| FilmQueries.NonIncreasingHead | src/main/java/com/example/films/repository/FilmRepository.java:28-29 | in a list ordered by likes the first film has at least the likes of any other |
| FilmQueries.PopularPage | src/main/java/com/example/films/service/films/FilmService.java:119-123 | a page of the popularity list counts all films, has ceil(count/size) pages and holds only stored films |
| FilmQueries.FiveFilmsInPagesOfThree | src/main/java/com/example/films/service/films/FilmService.java:119-123 | over five films, the first page of three holds the three most liked and there are two pages |
| FilmServices.YearCriteria | src/main/java/com/example/films/service/films/FilmService.java:135-143 | the year part fails with IllegalState exactly when both years are given and reversed |
| FilmServices.FilterCriteria | src/main/java/com/example/films/service/films/FilmService.java:128-149 | building the filter fails with IllegalState exactly for a reversed year range |
| FilmServices.SatisfiesAppend | src/main/java/com/example/films/service/films/FilmService.java:128-149 | conjoining two specifications admits exactly the films both admit |
| FilmServices.YearCriteriaMeaning | src/main/java/com/example/films/service/films/FilmService.java:135-143 | whichever form the year predicate takes, it admits exactly the films released within the given years |
| FilmServices.FilterMeaning | src/main/java/com/example/films/service/films/FilmService.java:128-149 | the built specification admits a film exactly when each given argument admits it: absent names, ratings and years and absent or empty lists ask nothing |
| FilmServices.SatisfiesFive | src/main/java/com/example/films/service/films/FilmService.java:128-149 | five conjoined parts admit a film exactly when each part does |
| FilmServices.FilterCriteriaForms | src/main/java/com/example/films/service/films/FilmService.java:136-137 | equal years give the exact-year predicate and no range, and no argument gives no predicate |
| FilmServices.GetFilmsByFilter | src/main/java/com/example/films/service/films/FilmService.java:125-151 | IllegalState exactly for a reversed year range; otherwise the requested page, at most `size` films, each stored and admitted by every given argument |
| FilmServices.MpaMergedAsWritten | src/main/java/com/example/films/service/films/FilmService.java:94-97 | as written, the mpa step fails with a null dereference exactly when a rating is given and the film has none; otherwise it merges |
| FilmServices.MergedMpa | src/main/java/com/example/films/service/films/FilmService.java:94-97 | no given rating keeps the stored one; a given rating leaves the film with that rating's id; the result is the given or the stored value |
| FilmServices.MpaCounterexample | src/main/java/com/example/films/service/films/FilmService.java:94-97 | a film without an mpa rating fails any update that sets one as written, while the corrected step sets it |
| FilmServices.FilmService.UpdateFilm | src/main/java/com/example/films/service/films/FilmService.java:71-102 | NotFound for an unknown film; otherwise each given field replaces the stored one (a duration of 0 counts as absent), given genres replace the set and list the film, rating and likes never change, and no other film changes |
| FilmServices.FilmService.Apply | src/main/java/com/example/films/service/films/FilmService.java:74-97 | the name, description, duration, release date and mpa each follow the partial-update merge |
| FilmServices.FilmService.ReplaceGenres | src/main/java/com/example/films/service/films/FilmService.java:82-85 | given genres replace the film's genres wholesale and each lists the film; no genres given leaves them |
| FilmServices.FilmService.DeleteFilmById | src/main/java/com/example/films/service/films/FilmService.java:107-116 | NotFound with nothing deleted for an unknown id; otherwise the film's reviews go, then the film, and the tables stay valid |
| KeyGenerators.PageSegments | src/main/java/com/example/films/key/generator/FilmsFilterKeyGenerator.java:27-28 | the fixed part of the key reads page=n;size=m; |
| KeyGenerators.OptionSegmentsRender | src/main/java/com/example/films/key/generator/FilmsFilterKeyGenerator.java:30-52 | the optional part is the name, genre, rating, fromYear, toYear and mpa segments in that order, each present only when its argument is given (lists: and non-empty) |
| KeyGenerators.FilmsFilterKey | src/main/java/com/example/films/key/generator/FilmsFilterKeyGenerator.java:16-55 | the appended key equals the rendering of the segment list the arguments determine |
| KeyGenerators.FilterKeyText | src/main/java/com/example/films/key/generator/FilmsFilterKeyGenerator.java:25-54 | the key is the page and size segments followed by each optional segment in the fixed order |
| KeyGenerators.AppendWhen | src/main/java/com/example/films/key/generator/FilmsFilterKeyGenerator.java:30-32 | one conditional append adds tag=value; exactly when the argument is present |
| KeyGenerators.FilterKeyPrefix | src/main/java/com/example/films/key/generator/FilmsFilterKeyGenerator.java:27-28 | every filter key starts with page=n;size=m; |
| KeyGenerators.FilterKeyWithoutOptions | src/main/java/com/example/films/key/generator/FilmsFilterKeyGenerator.java:27-54 | with every optional argument absent or empty, the key is exactly page=n;size=m; |
| KeyGenerators.FilterSegmentTags | src/main/java/com/example/films/key/generator/FilmsFilterKeyGenerator.java:27-52 | the segment tags are page, size, then the present optional tags in the fixed order |
| KeyGenerators.OptionSegmentTags | src/main/java/com/example/films/key/generator/FilmsFilterKeyGenerator.java:30-52 | the optional tags appear in the order name, genre, rating, fromYear, toYear, mpa, each only when its argument counts |
| KeyGenerators.FilterKeyIgnoresListOrder | src/main/java/com/example/films/key/generator/FilmsFilterKeyGenerator.java:34-36 | reordering the genre or mpa list leaves the key unchanged |
| KeyGenerators.Terminated | src/main/java/com/example/films/key/generator/UsersPageKeyGenerator.java:17-22 | a key of at least one field ends with ';' |
| KeyGenerators.UsersPageKey | src/main/java/com/example/films/key/generator/UsersPageKeyGenerator.java:13-23 | the appended key is id, method name, page number and page size, each followed by ';' |
| KeyGenerators.SplitTerminated | src/main/java/com/example/films/key/generator/UsersPageKeyGenerator.java:17-22 | splitting a key at its ';' terminators gives back the fields |
| KeyGenerators.UsersPageKeyFields | src/main/java/com/example/films/key/generator/UsersPageKeyGenerator.java:18-21 | a user-list key ends with ';' and splits into exactly its four fields |
| KeyGenerators.UsersPageKeyInjective | src/main/java/com/example/films/key/generator/UsersPageKeyGenerator.java:13-23 | equal user-list keys come from equal ids, method names, page numbers and page sizes, so different pages or methods never share a cache entry |
| Text.NatText | src/main/java/com/example/films/key/generator/UsersPageKeyGenerator.java:20-21 | the text of a natural number is a non-empty string of digits |
| Text.IntText | src/main/java/com/example/films/key/generator/UsersPageKeyGenerator.java:18 | the text of an integer is non-empty, made of digits and '-', and starts with a digit exactly for non-negative values |
| Text.NatTextInjective | src/main/java/com/example/films/key/generator/UsersPageKeyGenerator.java:20-21 | different natural numbers have different texts |
| Text.IntTextInjective | src/main/java/com/example/films/key/generator/UsersPageKeyGenerator.java:18 | different integers have different texts |
| Text.DecimalText | src/main/java/com/example/films/key/generator/FilmsFilterKeyGenerator.java:38-40 | the plain text of a decimal is never empty |
| Text.DecimalTextExamples | src/main/java/com/example/films/key/generator/FilmsFilterKeyGenerator.java:38-40 | 7.5, 7, 0.05 and -0.5 print as BigDecimal prints them |
| Text.LessEqTotal | src/main/java/com/example/films/key/generator/FilmsFilterKeyGenerator.java:35 | any two strings are comparable in String's natural order |
| Text.LessEqAntisymmetric | src/main/java/com/example/films/key/generator/FilmsFilterKeyGenerator.java:35 | strings at most each other are equal |
| Text.LessEqTransitive | src/main/java/com/example/films/key/generator/FilmsFilterKeyGenerator.java:35 | the natural order is transitive |
| Text.LessEqReflexive | src/main/java/com/example/films/key/generator/FilmsFilterKeyGenerator.java:35 | every string is at most itself |
| Text.SortedHeadLeast | src/main/java/com/example/films/key/generator/FilmsFilterKeyGenerator.java:35 | the first string of a sorted list is at most every string in it |
| Text.Insert | src/main/java/com/example/films/key/generator/FilmsFilterKeyGenerator.java:35 | inserting into a sorted list gives a sorted list holding one more copy of the string |
| Text.Sort | src/main/java/com/example/films/key/generator/FilmsFilterKeyGenerator.java:35 | sorted() returns the same strings in ascending order |
| Text.SortedUnique | src/main/java/com/example/films/key/generator/FilmsFilterKeyGenerator.java:35 | two sorted lists of the same strings are equal |
| Text.SortIgnoresOrder | src/main/java/com/example/films/key/generator/FilmsFilterKeyGenerator.java:35 | lists of the same strings in any order sort to the same list |
| Paging.SortedIds | src/main/java/com/example/films/repository/FriendshipRepository.java:26 | ORDER BY u.id ASC lists each id of the set exactly once, in strictly ascending order |
| Paging.TotalPages | src/main/java/com/example/films/service/films/FilmService.java:121-122 | a result has no pages exactly when it is empty |
| Paging.TotalPagesIsCeiling | src/main/java/com/example/films/service/films/FilmService.java:121-122 | the page count is the least number of pages of that size that hold the result |
| Paging.Slice | src/main/java/com/example/films/service/films/FilmService.java:121-122 | a page holds at most `size` elements, namely those at indices number*size onward, and nothing past the end |
| Paging.PageOf | src/main/java/com/example/films/service/films/FilmService.java:121-122 | a page reports its number, the full count and the page count, and holds its slice |
| Paging.ElementOnItsPage | src/main/java/com/example/films/service/films/FilmService.java:121-122 | the element at index i is on page i / size at position i mod size |
| Paging.ThreeInPagesOfTwo | src/main/java/com/example/films/service/films/FilmService.java:121-122 | three elements in pages of two give a first page of two and a second of one; a page of twenty holds all three |
| Paging.FiveInPagesOfThree | src/main/java/com/example/films/service/films/FilmService.java:121-122 | five elements in pages of three give two pages, the first holding the first three |

## Left out

- Controllers, HTTP routing, status codes and `@PreAuthorize` wiring are not part of this model. The "accept" endpoint calls `sendRequest`, so accepting through it is `FriendshipMachine.SendRequest`.
- Sign-in and token refresh (JWT, BCrypt) are not part of this model. The password encoder is an uninterpreted function-valued field of `UserService`.
- Caching (`@Cacheable`, `@CacheEvict`, `@CachePut`, the Caffeine configuration) is left out. It is a performance layer; only the two key generators are modelled.
- Transactions and the REPEATABLE_READ isolation level are left out. Each operation is one sequential step. A failing transactional operation is rolled back, so the model leaves the stores unchanged on every failure; the intermediate writes that the rollback undoes are not modelled.
- The clock is a parameter (`now`), so timestamps are opaque values.
- DTOs and the MapStruct mappings are left out. Operations return the stored record or entity itself rather than its DTO projection.
- Bean Validation (`@Past`, `@Email`, `@Size`, `@Positive`, MinReleaseDate) is not enforced. The rating bounds of `Film` are the predicate `Rating.InRange`.
- The plain finders of UserRepository, GenreRepository and MpaRepository are map lookups. `getFilmById`, `createFilm`, `getReviewsForFilm` and FilmDescriptionService are outside the modelled core.
- The user lists are modelled as sets. Their `UserSimpleDto` projection is not modelled. Their ascending id order is `Paging.SortedIds`, and no member composes it with `Paging.PageOf`.
- `date_part` returns a Double; years are integers here.
- The film queries read `FilmSpecifications.FilmRow` values: the id, the name, the release year, the rating, the mpa name, the genre names and the like count. How these rows are read from the `Film` entities and their joins is not modelled.
- String's `compareTo` compares UTF-16 code units. `Text.LessEq` compares Unicode scalar values, so the two orders can differ for characters above U+FFFF, which Java stores as surrogate pairs.
- FilmSpecifications.Lower: the database's lower() is modelled for Latin and Russian letters only; other scripts are left as they are.
- FilmSpecifications.HasTitleLike: '%' and '_' inside the query are taken literally, not as LIKE wildcards.
- FilmQueries.Select: the joins of the genre and mpa predicates can repeat a film in the database's result; the model lists each stored film once.
- FilmQueries.MostPopular: the order of films with equal likes is not specified by the query; the model keeps their stored order.
- FilmServices.GetFilmsByFilter: states that every film on the page is stored and admitted, and the page bound, but not which admitted films land on which page. Paging itself is stated by `Paging.PageOf`.
- FilmQueries.PopularPage: states the counts and that the page holds stored films. Its exact content is stated only for the five-film case in `FilmQueries.FiveFilmsInPagesOfThree`.
- Text.DecimalText: only plain notation is modelled; BigDecimal's scientific notation for negative scales or large exponents is not.
- Authentications.IsBlockedByCurrentUser: the denial direction is stated under the one-record-per-pair invariant. With duplicate records the source's single-result lookup would fail instead.
- UserServices.UserService.DeleteUser: the removal of the user's rows from the user_likes join table is not modelled. Films keep the deleted user's id in their likedBy set. As in the source, the ratings of films the user reviewed are not recomputed.
- Entities: the JPA entity graph (lazy loading, managed-entity identity, the reviews collections of `User` and `Film`) is left out. Associations hold ids.

## Findings

| source | as written | input that shows it | evidently intended | confidence | as-written member | corrected member |
|---|---|---|---|---|---|---|
| src/main/java/com/example/films/service/UserService.java:105 | `equals` is called on the stored birthday before any null check | a user registered without a birthday, then any updateUser request | an unset stored birthday is kept, or replaced by a given one | not executed | UserServices.BirthdayMergedAsWritten | Merging.MergedOptional |
| src/main/java/com/example/films/service/films/FilmService.java:94 | `getId()` is called on the stored mpa rating before any null check | a film created without an mpa rating, then an updateFilm request that gives one | the given rating is set | not executed | FilmServices.MpaMergedAsWritten | FilmServices.MergedMpa |
| src/main/java/com/example/films/service/films/FilmReviewService.java:113-115 | the incremental delete can leave the declared rating range after earlier roundings | reviews 0.0, 0.0 and 0.1 give the rating 0.0; deleting the 0.1 review computes (0.0·3 − 0.1)/2 = −0.05, which rounds to −0.1 | the rating stays within [0.0, 10.0] | not executed | Rating.DeletedRatingAsWritten | Rating.DeletedRating |
