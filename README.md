# pmeet-server core, modelled in Dafny

This project models the core of the pmeet-server backend, a Kotlin service where users publish projects, bookmark them and apply to them ("tryouts"). It covers five parts:

- **The project query engine.** This is the MongoDB aggregation pipelines of `CustomProjectRepositoryImpl`:
  - the filter criteria builder;
  - the search pipeline (match, derived bookmark count, sort, skip, over-fetching limit);
  - the owned-projects query;
  - the membership join and the tryout join with its projection;
  - the slice a page of over-fetched rows becomes.

  Every pipeline is a pure function over in-memory sequences of documents.
- **The tryout status state machine** (`ProjectTryout`). It is a class with a mutable status and a membership record built from it.
- **The resume creation request.** Its annotation constraints become a validity predicate, and its mapping to the resume entity is modelled with the mappings of its four nested parts.
- **The resume response mapping**, which shows absent optional texts as `""`.
- **The user service.** It is a class that owns the user store. It models the ordered duplicate checks of `save`, the unchecked `update`, and lookups that only see users not marked deleted.

Files:

- `common.dfy` holds the shared option/result types, the error codes, substring search, "not blank", the UTF-16 length and sequence mapping.
- `ordering.dfy` gives the store's match, sort and skip/limit stages over any row type.
- `paging.dfy` holds page requests, the skip/limit counts and the slice.
- `project_domain.dfy` holds the project-side documents and the tryout state machine.
- `project_query.dfy` holds the query engine.
- `resume_domain.dfy`, `resume_request.dfy` and `resume_response.dfy` hold the resume entity and its two mappings.
- `user_service.dfy` holds the user service.

## How the pipelines are modelled

Sorting follows the store's semantics:

- The store does not promise a stable sort. So a query's result is stated as the page window of *some* sorted permutation of the matching rows.
- `Ordering.SortBy` is one such permutation. It is only a witness.
- Keys are integer vectors compared lexicographically. A descending key is stored negated.
- A sort on a name that is not a field of the document reads as a missing field. Every row then ties.

Joins work like this:

- The `$toObjectId` coercion of a child's `projectId` becomes `ProjectQuery.ToObjectId`.
- The `$lookup` followed by `$unwind` becomes an inner join, `ProjectQuery.Unwind`.
- A join page is described by its *source pairs*: the (child, project) pairs each output row comes from.

Timestamps are integers. The clock reading of `createProjectMember` is a parameter.

## Model

| member | source | states |
|---|---|---|
| Common.Utf16Length | src/main/kotlin/pmeet/pmeetserver/user/dto/resume/request/CreateResumeRequestDto.kt:70 | A string's Java length is between its character count and twice that, and equals the character count when every character is in the Basic Multilingual Plane |
| Common.Contains | src/main/kotlin/pmeet/pmeetserver/project/repository/CustomProjectRepositoryImpl.kt:199-204 | The value occurs in the text exactly when it starts at some position of the text; the regular expression `.*value.*` on a plain value means this |
| Common.NotBlank | src/main/kotlin/pmeet/pmeetserver/user/dto/resume/request/CreateResumeRequestDto.kt:69 | Java's `trim` leaves something exactly when some character is above U+0020 |
| Ordering.Filter | src/main/kotlin/pmeet/pmeetserver/project/repository/CustomProjectRepositoryImpl.kt:237 | A `$match` stage keeps exactly the rows the predicate accepts, in order, as a sub-multiset of the input |
| Ordering.FilterAppend | src/main/kotlin/pmeet/pmeetserver/project/repository/CustomProjectRepositoryImpl.kt:237 | Filtering a concatenation is the concatenation of the filtered parts, so kept rows keep their relative order |
| Ordering.FilterAll | src/main/kotlin/pmeet/pmeetserver/project/repository/CustomProjectRepositoryImpl.kt:108 | A match that accepts every row returns its input unchanged |
| Ordering.SortBy | src/main/kotlin/pmeet/pmeetserver/project/repository/CustomProjectRepositoryImpl.kt:248-253 | The witness sort returns a permutation of its input that is sorted by the key |
| Ordering.Insert | src/main/kotlin/pmeet/pmeetserver/project/repository/CustomProjectRepositoryImpl.kt:248-253 | Inserting into a sorted sequence keeps it sorted and adds exactly one copy of the row |
| Ordering.Window | src/main/kotlin/pmeet/pmeetserver/project/repository/CustomProjectRepositoryImpl.kt:255-256 | `$skip` then `$limit` return the rows from position `skip` on, as many as the limit and the input allow |
| Ordering.FilterSorted | src/main/kotlin/pmeet/pmeetserver/project/repository/CustomProjectRepositoryImpl.kt:108 | A match stage after a sort keeps the rows in key order |
| Ordering.FilterMultiset | src/main/kotlin/pmeet/pmeetserver/project/repository/CustomProjectRepositoryImpl.kt:237 | A match stage keeps every copy of an accepted row and no copy of a rejected one |
| Ordering.FilterMap | src/main/kotlin/pmeet/pmeetserver/project/repository/CustomProjectRepositoryImpl.kt:161-171 | Matching on a projected row is the same as matching the source row on the value the projection copies, then projecting |
| Ordering.FilterNone | src/main/kotlin/pmeet/pmeetserver/project/repository/CustomProjectRepositoryImpl.kt:108 | A match that rejects every row returns nothing |
| Ordering.WindowSorted | src/main/kotlin/pmeet/pmeetserver/project/repository/CustomProjectRepositoryImpl.kt:255-258 | Skip and limit keep a sorted sequence sorted |
| Ordering.LexLessTransitive | src/main/kotlin/pmeet/pmeetserver/project/repository/CustomProjectRepositoryImpl.kt:248-253 | The multi-key sort order is transitive |
| Ordering.LexLessIrreflexive | src/main/kotlin/pmeet/pmeetserver/project/repository/CustomProjectRepositoryImpl.kt:248-253 | No key vector comes strictly before itself |
| Paging.SkipCount | src/main/kotlin/pmeet/pmeetserver/project/repository/CustomProjectRepositoryImpl.kt:256 | The skip count `pageNumber * pageSize` fits in a 32-bit `Int` for a valid page request |
| Paging.LimitCount | src/main/kotlin/pmeet/pmeetserver/project/repository/CustomProjectRepositoryImpl.kt:255 | The limit fetches more rows than the page size |
| Paging.PageWindow | src/main/kotlin/pmeet/pmeetserver/project/repository/CustomProjectRepositoryImpl.kt:255-258 | The page window has at most `pageSize + 1` rows. It has the extra row exactly when the rows continue past the page, and it is non-empty whenever the skip count is inside the input. Row i is input row `skip + i` |
| Paging.ToSlice | src/test/kotlin/pmeet/pmeetserver/project/service/ProjectServiceUnitTest.kt:246-249 | `hasNext` holds exactly when more than `pageSize` rows were fetched. Content is the first `min(fetched, pageSize)` rows. `isFirst` means page 0, `isLast` is `!hasNext`, and `size` is the page size |
| Paging.SliceOfWindow | src/main/kotlin/pmeet/pmeetserver/project/repository/CustomProjectRepositoryImpl.kt:255-258 | A slice built from a page window has a next page exactly when the unpaged rows continue past the page, and its content is the page's rows |
| ProjectDomain.StatusTransition | src/main/kotlin/pmeet/pmeetserver/project/domain/ProjectTryout.kt:23-29 | A status change succeeds exactly from IN_REVIEW and sets the requested status, whatever it is. Otherwise it fails with PROJECT_TRYOUT_STATUS_UPDATE_FAIL |
| ProjectDomain.ProjectTryout.constructor | src/main/kotlin/pmeet/pmeetserver/project/domain/ProjectTryout.kt:11-22 | A tryout holds the given field values |
| ProjectDomain.ProjectTryout.UpdateStatus | src/main/kotlin/pmeet/pmeetserver/project/domain/ProjectTryout.kt:23-29 | From IN_REVIEW the status becomes the requested one. From any other status the call fails with PROJECT_TRYOUT_STATUS_UPDATE_FAIL and the status is unchanged. No other field is in the frame |
| ProjectDomain.ProjectTryout.CreateProjectMember | src/main/kotlin/pmeet/pmeetserver/project/domain/ProjectTryout.kt:31-40 | The membership copies resume id, user id, user name, self description and project id, and is stamped with the clock reading. Id, tryout id, position name and thumbnail are absent. The tryout is not changed, since the function only reads it |
| ProjectDomain.ProjectTryout.ToDoc | src/main/kotlin/pmeet/pmeetserver/project/domain/ProjectTryout.kt:11-22 | The stored document carries the tryout's id, resume id, user id, user name, self description, position name, status, project id and creation time, and no profile image URL |
| ProjectDomain.RunUpdates | src/main/kotlin/pmeet/pmeetserver/project/domain/ProjectTryout.kt:23-29 | A series of update requests reports one success flag per request |
| ProjectDomain.DecidedIsFinal | src/main/kotlin/pmeet/pmeetserver/project/domain/ProjectTryout.kt:24-28 | Once out of review, every further update fails and the status stays |
| ProjectDomain.DecisionHappensOnce | src/main/kotlin/pmeet/pmeetserver/project/domain/ProjectTryout.kt:24-28 | After a successful update to a non-IN_REVIEW status, every later update in the series fails and that status is final |
| ProjectDomain.InReviewStaysUpdatable | src/main/kotlin/pmeet/pmeetserver/project/domain/ProjectTryout.kt:24-25 | Updating an in-review tryout to IN_REVIEW succeeds and keeps it updatable, so nothing limits a tryout to one successful update |
| ProjectQuery.BaseCriteria | src/main/kotlin/pmeet/pmeetserver/project/repository/CustomProjectRepositoryImpl.kt:194-206 | An absent type or value matches every project. TITLE matches when the title contains the value, JOB_NAME when some recruitment's job name does, and ALL when either does |
| ProjectQuery.CreateCriteria | src/main/kotlin/pmeet/pmeetserver/project/repository/CustomProjectRepositoryImpl.kt:188-213 | The filter selects a project exactly when the type/value filter selects it and, if `isMy == true`, the requester created it |
| ProjectQuery.AllIsTitleOrJobName | src/main/kotlin/pmeet/pmeetserver/project/repository/CustomProjectRepositoryImpl.kt:197-205 | The ALL filter is the union of the TITLE and JOB_NAME filters for the same value |
| ProjectQuery.ScopeIsConjunction | src/main/kotlin/pmeet/pmeetserver/project/repository/CustomProjectRepositoryImpl.kt:208-212 | `isMy == true` adds "created by the requester" with AND. `false` and absent add nothing |
| ProjectQuery.BookmarkersSize | src/main/kotlin/pmeet/pmeetserver/project/repository/CustomProjectRepositoryImpl.kt:239-246 | The derived count is the bookmark array's length, with an absent array counted as 0, so it is never undefined |
| ProjectQuery.OrderFor | src/main/kotlin/pmeet/pmeetserver/project/repository/CustomProjectRepositoryImpl.kt:248-249 | This is the direction of the first order on a property, and is absent exactly when no order names it |
| ProjectQuery.EffectiveSort | src/main/kotlin/pmeet/pmeetserver/project/repository/CustomProjectRepositoryImpl.kt:248-253 | Without an order on "bookmarkers" the requested sort is used unchanged. With one, the sort is a single bookmarkers order: the first such order in the request |
| ProjectQuery.SortKey | src/main/kotlin/pmeet/pmeetserver/project/repository/CustomProjectRepositoryImpl.kt:248-253 | The key has one component per requested order: the field value, negated for a descending order |
| ProjectQuery.SearchAggregation | src/main/kotlin/pmeet/pmeetserver/project/repository/CustomProjectRepositoryImpl.kt:234-259 | Every row of a search page is a stored project with the requested completion flag that satisfies the criteria, and there are at most `pageSize + 1` rows |
| ProjectQuery.FindAllByFilter | src/main/kotlin/pmeet/pmeetserver/project/repository/CustomProjectRepositoryImpl.kt:43-53 | Every row is a stored project with the requested completion flag that the type and value filter selects and, when `isMy == true`, that the requester created. There are at most `pageSize + 1` rows |
| ProjectQuery.TitleSearchFindsInfix | src/main/kotlin/pmeet/pmeetserver/project/repository/CustomProjectRepositoryImpl.kt:203 | A project whose title holds the searched value at some position is selected by a TITLE search for it |
| ProjectQuery.SearchAggregationSpec | src/main/kotlin/pmeet/pmeetserver/project/repository/CustomProjectRepositoryImpl.kt:234-259 | Every search row is a stored project with the requested completion flag that satisfies the criteria. The page is the window at `pageNumber * pageSize` of some sorted permutation of the matches. Its exact size is given by the match count, and it is sorted by the effective key |
| ProjectQuery.FirstOrderMonotone | src/main/kotlin/pmeet/pmeetserver/project/repository/CustomProjectRepositoryImpl.kt:248-253 | In rows sorted by a list of orders, the first order's field is monotone in that order's direction |
| ProjectQuery.SearchSortOrder | src/main/kotlin/pmeet/pmeetserver/project/repository/CustomProjectRepositoryImpl.kt:248-253 | An order on "bookmarkers" sorts the page by the derived count alone, descending or ascending as requested. Without one, the page is in the requested sort's order |
| ProjectQuery.FindProjectByUserIdOrderByCreatedAtDesc | src/main/kotlin/pmeet/pmeetserver/project/repository/CustomProjectRepositoryImpl.kt:55-72 | Every row is one of the requester's stored projects, and there are at most `pageSize + 1` rows |
| ProjectQuery.OwnedProjectsSpec | src/main/kotlin/pmeet/pmeetserver/project/repository/CustomProjectRepositoryImpl.kt:55-72 | The owned query returns only the requester's projects, newest first. The result is the page window of some such order, whatever the request's sort. Its size is given by the owned count |
| ProjectQuery.ToObjectId | src/main/kotlin/pmeet/pmeetserver/project/repository/CustomProjectRepositoryImpl.kt:81-83 | A key coerces exactly when it is 24 hex digits, giving their lower-case form |
| ProjectQuery.Lookup | src/main/kotlin/pmeet/pmeetserver/project/repository/CustomProjectRepositoryImpl.kt:85-92 | The lookup and unwind of one child give one pair per project with the coerced id, each stored project with that id included: none when no project has it, and at most one when ids are unique |
| ProjectQuery.Unwind | src/main/kotlin/pmeet/pmeetserver/project/repository/CustomProjectRepositoryImpl.kt:81-92 | The join is exact: every pair is a child row and a stored project whose id is the child's coerced key, and every child and project so related form a pair. With unique ids there are no more pairs than children |
| ProjectQuery.SortedAppend | src/main/kotlin/pmeet/pmeetserver/project/repository/CustomProjectRepositoryImpl.kt:99-107 | Two sorted runs, the second not before the first, concatenate into a sorted run |
| ProjectQuery.UnwindSorted | src/main/kotlin/pmeet/pmeetserver/project/repository/CustomProjectRepositoryImpl.kt:99-107 | Joined rows keep the order of the sorted child rows they come from |
| ProjectQuery.ChildWindow | src/main/kotlin/pmeet/pmeetserver/project/repository/CustomProjectRepositoryImpl.kt:99-103 | A join's child window holds only selected children, at most `pageSize + 1` of them |
| ProjectQuery.JoinSources | src/main/kotlin/pmeet/pmeetserver/project/repository/CustomProjectRepositoryImpl.kt:99-109 | Each source pair is a child of the page's child window and the stored project its key names, with the requested completion flag |
| ProjectQuery.JoinedChildHead | src/main/kotlin/pmeet/pmeetserver/project/repository/CustomProjectRepositoryImpl.kt:85-108 | With unique ids, one child yields itself after the completion filter exactly when its key names a project with the requested flag |
| ProjectQuery.JoinedChildren | src/main/kotlin/pmeet/pmeetserver/project/repository/CustomProjectRepositoryImpl.kt:81-108 | With unique ids, the children behind the completion-filtered join are, in order, exactly the children whose key names a project with the requested flag |
| ProjectQuery.ChildWindowSpec | src/main/kotlin/pmeet/pmeetserver/project/repository/CustomProjectRepositoryImpl.kt:99-103 | A join's child window is the page window of some sorted permutation of the selected children. It holds only selected children, in key order |
| ProjectQuery.JoinSourcesSpec | src/main/kotlin/pmeet/pmeetserver/project/repository/CustomProjectRepositoryImpl.kt:99-109 | Each source pair of a join page is a child of the page's child window (so the `$skip` is applied) and the project its key names, with the requested completion flag. Pairs are in child-key order, and with unique ids there are at most `pageSize + 1` |
| ProjectQuery.JoinSourcesComplete | src/main/kotlin/pmeet/pmeetserver/project/repository/CustomProjectRepositoryImpl.kt:99-109 | Every window child and every project its key names with the requested flag form a source pair. With unique ids, the pairs come one each, in order, from exactly the window children whose key names a project with the flag |
| ProjectQuery.NewestFirst | src/main/kotlin/pmeet/pmeetserver/project/repository/CustomProjectRepositoryImpl.kt:95 | Pairs sorted by a negated child timestamp are newest first |
| ProjectQuery.FindProjectsByProjectMemberUserIdAndIsCompletedOrderByCreatedAtDesc | src/main/kotlin/pmeet/pmeetserver/project/repository/CustomProjectRepositoryImpl.kt:74-118 | Every row is a stored project with the requested completion flag |
| ProjectQuery.MembershipRows | src/main/kotlin/pmeet/pmeetserver/project/repository/CustomProjectRepositoryImpl.kt:99-109 | A membership page is the projects of its source records, in order |
| ProjectQuery.MembershipSpec | src/main/kotlin/pmeet/pmeetserver/project/repository/CustomProjectRepositoryImpl.kt:74-118 | Row i of a membership page is the project named by the i-th source membership, which is the requester's and lies in the page's membership window. Every row has the requested completion flag. Rows follow membership creation time, newest first, and there are at most `pageSize + 1` |
| ProjectQuery.MembershipComplete | src/main/kotlin/pmeet/pmeetserver/project/repository/CustomProjectRepositoryImpl.kt:99-109 | Every windowed membership whose key names a project with the requested flag yields that project's row. With unique ids the page has exactly one row per such membership |
| ProjectQuery.MembershipFullPage | src/test/kotlin/pmeet/pmeetserver/project/repository/ProjectRepositoryUnitTest.kt:494-530 | When every windowed membership names a project with the flag, the page has one row per windowed membership, so `pageSize + 1` rows while memberships continue past the page (11 for 20 memberships and page size 10) |
| ProjectQuery.MembershipPageEmptyWithoutFlag | src/main/kotlin/pmeet/pmeetserver/project/repository/CustomProjectRepositoryImpl.kt:99-108 | When no project has the requested completion flag the page is empty, however many memberships match |
| ProjectQuery.MembershipPageCanBeEmpty | src/main/kotlin/pmeet/pmeetserver/project/repository/CustomProjectRepositoryImpl.kt:99-108 | A non-empty membership window can yield an empty page, because the completion filter runs after paging |
| ProjectQuery.ProjectTryoutRow | src/main/kotlin/pmeet/pmeetserver/project/repository/CustomProjectRepositoryImpl.kt:146-159 | A tryout row takes id, creator, title, thumbnail, description and completion flag from the project, and the remaining fields from the tryout |
| ProjectQuery.FindProjectsByProjectTryoutUserIdAndIsCompletedOrderByCreatedAtDesc | src/main/kotlin/pmeet/pmeetserver/project/repository/CustomProjectRepositoryImpl.kt:120-180 | Every row has the requested completion flag |
| ProjectQuery.TryoutRows | src/main/kotlin/pmeet/pmeetserver/project/repository/CustomProjectRepositoryImpl.kt:161-171 | A tryout page is the projection of its source pairs, in order |
| ProjectQuery.TryoutSpec | src/main/kotlin/pmeet/pmeetserver/project/repository/CustomProjectRepositoryImpl.kt:120-180 | Row i of a tryout page projects the i-th source pair: one of the requester's tryouts in the requested status, in the page's tryout window, and the project its key names with the requested flag. Rows follow tryout creation time, newest first, and there are at most `pageSize + 1` |
| ProjectQuery.TryoutComplete | src/main/kotlin/pmeet/pmeetserver/project/repository/CustomProjectRepositoryImpl.kt:161-171 | Every windowed tryout whose key names a project with the requested flag yields its projected row. With unique ids the page has exactly one row per such tryout |
| ProjectQuery.StoredTryoutRow | src/main/kotlin/pmeet/pmeetserver/project/repository/CustomProjectRepositoryImpl.kt:146-159 | A row built from a tryout the class writes shows that tryout's resume, user, self description, position and status, the project's id and completion flag, and no profile image |
| ResumeRequest.JobRequest.ToEntity | src/main/kotlin/pmeet/pmeetserver/user/dto/resume/request/CreateResumeRequestDto.kt:20-25 | The job keeps the request's id and name: the request can be read back from it |
| ResumeRequest.TechStackRequest.ToEntity | src/main/kotlin/pmeet/pmeetserver/user/dto/resume/request/CreateResumeRequestDto.kt:32-37 | The tech stack keeps the request's id and name: the request can be read back from it |
| ResumeRequest.JobExperienceRequest.ToEntity | src/main/kotlin/pmeet/pmeetserver/user/dto/resume/request/CreateResumeRequestDto.kt:45-51 | The job experience keeps company name, period and responsibilities: the request can be read back from it |
| ResumeRequest.ProjectExperienceRequest.ToEntity | src/main/kotlin/pmeet/pmeetserver/user/dto/resume/request/CreateResumeRequestDto.kt:59-65 | The project experience keeps project name, period and responsibilities: the request can be read back from it |
| ResumeRequest.CreateResumeRequest.Valid | src/main/kotlin/pmeet/pmeetserver/user/dto/resume/request/CreateResumeRequestDto.kt:69-101 | A request passing the declared constraints has a title of 1 to 30 characters and no space in it |
| ResumeRequest.CreateResumeRequest.ToEntity | src/main/kotlin/pmeet/pmeetserver/user/dto/resume/request/CreateResumeRequestDto.kt:103-122 | The resume has no id yet. Scalar and nullable fields are passed through unchanged. The four lists keep their length and order and are mapped element by element |
| ResumeRequest.ToEntityRoundTrip | src/main/kotlin/pmeet/pmeetserver/user/dto/resume/request/CreateResumeRequestDto.kt:16-122 | The request and its nested requests map to the entity one to one: the request can be read back from the resume, and every id-less resume is built from its read-back request |
| ResumeRequest.PatternTitleLength | src/main/kotlin/pmeet/pmeetserver/user/dto/resume/request/CreateResumeRequestDto.kt:70-74 | For a title that matches the pattern, the Java length is the character count |
| ResumeRequest.TitleNotBlankIsImplied | src/main/kotlin/pmeet/pmeetserver/user/dto/resume/request/CreateResumeRequestDto.kt:69-74 | The size and pattern constraints alone make a title non-blank |
| ResumeRequest.TitleRejections | src/main/kotlin/pmeet/pmeetserver/user/dto/resume/request/CreateResumeRequestDto.kt:69-74 | A title with a space, an empty title and a title over 30 characters are all rejected |
| ResumeRequest.ValidRequestBounds | src/main/kotlin/pmeet/pmeetserver/user/dto/resume/request/CreateResumeRequestDto.kt:69-101 | A valid request builds a resume whose title is 1 to 30 non-blank Hangul, ASCII letter, digit or punctuation characters. It has at most 5 desired jobs, 5 tech stacks and 3 portfolio links, and a self description of at most 500 characters |
| ResumeResponse.JobFrom | src/main/kotlin/pmeet/pmeetserver/user/dto/resume/response/ResumeResponseDto.kt:72 | A job is reported with its id and name |
| ResumeResponse.TechStackFrom | src/main/kotlin/pmeet/pmeetserver/user/dto/resume/response/ResumeResponseDto.kt:73 | A tech stack is reported with its id and name |
| ResumeResponse.JobExperienceFrom | src/main/kotlin/pmeet/pmeetserver/user/dto/resume/response/ResumeResponseDto.kt:18-24 | A job experience is reported with its company name, period and responsibilities |
| ResumeResponse.ProjectExperienceFrom | src/main/kotlin/pmeet/pmeetserver/user/dto/resume/response/ResumeResponseDto.kt:34-40 | A project experience is reported with its project name as `companyName`, and with its period and responsibilities |
| ResumeResponse.OrEmpty | src/main/kotlin/pmeet/pmeetserver/user/dto/resume/response/ResumeResponseDto.kt:71 | A present text is shown unchanged and an absent one as "" |
| ResumeResponse.From | src/main/kotlin/pmeet/pmeetserver/user/dto/resume/response/ResumeResponseDto.kt:62-80 | The resume's id is required and copied. Title, user fields and portfolio links are copied. Absent image URL, portfolio file URL and self description become "". The four lists are mapped element by element in order |
| ResumeResponse.ResponseOfCreatedResume | src/main/kotlin/pmeet/pmeetserver/user/dto/resume/response/ResumeResponseDto.kt:62-80 | The response for a resume created from a request reports the request's data: title, user name, gender, birth date, phone number, email and portfolio links, and every entry of the desired jobs, tech stacks, job experiences and project experiences in order with all their fields. Project names appear under `companyName` and absent texts as "". The request's user id and active flag are not reported |
| ResumeResponse.AbsentAndEmptyLookAlike | src/main/kotlin/pmeet/pmeetserver/user/dto/resume/response/ResumeResponseDto.kt:71-78 | The response does not tell an absent optional text from an empty one |
| Users.FindSingle | src/main/kotlin/pmeet/pmeetserver/user/service/UserService.kt:33 | A single-result query finds nothing exactly when no user matches, and "many" exactly when two do. Otherwise it finds a matching stored user |
| Users.FindById | src/main/kotlin/pmeet/pmeetserver/user/service/UserService.kt:45 | Lookup by id, deleted users included, finds a user with that id exactly when one exists |
| Users.HighestNicknameNumber | src/main/kotlin/pmeet/pmeetserver/user/service/UserService.kt:67 | The result is an active user with a maximal nickname number among active users, or none exactly when all users are deleted |
| Users.Stored | src/main/kotlin/pmeet/pmeetserver/user/service/UserService.kt:28 | A stored user always has an id: its own, or the generated one |
| Users.Upsert | src/main/kotlin/pmeet/pmeetserver/user/service/UserService.kt:28 | After a save the user is stored, every user with another id is kept, and nothing else is present |
| Users.UpsertSpec | src/main/kotlin/pmeet/pmeetserver/user/service/UserService.kt:28 | After a save the user is stored, every user with another id is kept, nothing else is present, and ids stay unique |
| Users.SavedUserIsFound | src/main/kotlin/pmeet/pmeetserver/user/service/UserService.kt:19-29 | After an active user is saved over a store where no active user had its email, lookup by email finds exactly that user. The same holds for the nickname |
| Users.OnlyMatchIsSaved | src/main/kotlin/pmeet/pmeetserver/user/service/UserService.kt:19-29 | If nothing matched before a save and the saved user matches, it is the one match afterwards |
| Users.StoredIdsDistinct | src/main/kotlin/pmeet/pmeetserver/user/service/UserService.kt:28 | Two positions of the saved store hold different ids |
| Users.UserService.constructor | src/main/kotlin/pmeet/pmeetserver/user/service/UserService.kt:15-17 | The service starts over a store with unique ids |
| Users.UserService.Save | src/main/kotlin/pmeet/pmeetserver/user/service/UserService.kt:19-29 | The email check comes first and wins: an active user with the email gives USER_DUPLICATE_BY_EMAIL. The nickname check comes next and gives USER_DUPLICATE_BY_NICKNAME. A query with several matches fails with an incorrect result size. Deleted users never block. On failure the store is unchanged; otherwise the user is stored and returned |
| Users.UserService.Update | src/main/kotlin/pmeet/pmeetserver/user/service/UserService.kt:60-63 | The user is stored without any duplicate check |
| Users.UserService.GetUserByNickname | src/main/kotlin/pmeet/pmeetserver/user/service/UserService.kt:31-35 | The result is the active user with the nickname when exactly one exists. USER_NOT_FOUND_BY_NICKNAME comes exactly when there is none, and an incorrect result size exactly when there are several; no other error occurs |
| Users.UserService.GetUserByEmail | src/main/kotlin/pmeet/pmeetserver/user/service/UserService.kt:37-41 | The result is the active user with the email when exactly one exists. USER_NOT_FOUND_BY_EMAIL comes exactly when there is none, and an incorrect result size exactly when there are several; no other error occurs |
| Users.UserService.GetUserById | src/main/kotlin/pmeet/pmeetserver/user/service/UserService.kt:43-48 | The result is the user with the id. USER_NOT_FOUND_BY_ID comes exactly when there is none. In a store with unique ids, IS_DELETED_USER comes exactly when that user is deleted, and the user is returned exactly when it is not |
| Users.UserService.FindUserByNickname | src/main/kotlin/pmeet/pmeetserver/user/service/UserService.kt:50-53 | The result is "none", not an error, exactly when no active user has the nickname; the active user with it when exactly one exists; and an incorrect result size exactly when several do. A returned user is a stored active user with the nickname |
| Users.UserService.FindUserByEmail | src/main/kotlin/pmeet/pmeetserver/user/service/UserService.kt:55-58 | The result is "none", not an error, exactly when no active user has the email; the active user with it when exactly one exists; and an incorrect result size exactly when several do. A returned user is a stored active user with the email |
| Users.UserService.FindUserWithHighestNicknameNumber | src/main/kotlin/pmeet/pmeetserver/user/service/UserService.kt:65-68 | The result is an active user whose nickname number is maximal among active users, or none exactly when every user is deleted |
| Users.UserService.FindAgreesWithGet | src/main/kotlin/pmeet/pmeetserver/user/service/UserService.kt:31-58 | `get` returns a user exactly when `find` does, and the same one. `get`'s not-found error is `find`'s empty answer |
| Users.UpdateCanDuplicateEmail | src/main/kotlin/pmeet/pmeetserver/user/service/UserService.kt:60-63 | An update can leave two active users with one email, after which lookup by that email fails with an incorrect result size |

## Left out

- ProjectQuery.CreateCriteria: the filter value is pasted unescaped into the regular expression `.*value.*`. The model requires a value without regular-expression metacharacters, where the filter means "contains, case-sensitively". Other values are not modelled.
- Paging.SkipCount: the skip is a 32-bit `Int` product widened afterwards, so a large page number wraps around. The model requires a request whose product fits.
- ProjectQuery.Unwind: a malformed child `projectId` makes `$toObjectId` raise a store error. The model requires every key in the child window to be well formed, and leaves the error unspecified.
- ProjectQuery.SortKey: of the real fields, only `createdAt`, `updatedAt` and the derived bookmark count are sort properties. Any other name reads as a missing field, so all rows tie. An empty requested sort also leaves all rows tied, though the store may refuse an empty `$sort` stage.
- ProjectQuery.FindProjectsByProjectTryoutUserIdAndIsCompletedOrderByCreatedAtDesc: its own contract states only the completion flag. That every row comes from one of the requester's tryouts in the requested status, within the page's window, is stated by ProjectQuery.TryoutSpec.
- Ordering.SortBy: the order of tied rows is not modelled, because the store does not promise a stable sort. All sort results are stated as some sorted permutation.
- No member query ordered by completion time is implemented in `CustomProjectRepositoryImpl.kt`, so no `completedAt` sort is modelled.
- `@Email` on `userEmail`, and `@NotBlank` on the non-string `userGender` and `userBirthDate`: their meaning is defined by the validation library.
- `Resume.kt`, `Job.kt`, `TechStack.kt`, `JobResponseDto.kt`, `TechStackResponseDto.kt`, `User.kt`, `UserRepository.kt` and the enumerations `Gender`, `ExperienceYear` and `ProjectTryoutStatus` are not part of this model. The resume id is taken to default to absent, and the job and tech-stack responses to copy id and name. A user is reduced to id, email, nickname, deleted flag and nickname number. Enumerations are carried by name.
- ResumeResponse.From: `resume.id!!` throws on a resume without an id. The model requires an id instead of modelling the exception.
- Users.UserService.Save: the identifier the store generates for a new user is a parameter that must not be in use. Reactive execution and transactions are not modelled, so each operation is atomic.
- Users.FindSingle: a derived single-result query with more than one match is modelled as failing with an incorrect result size, and that failure propagates from `save`, `get` and `find`.
- Reactive plumbing (`Flux`, `Mono`, `suspend`, `mongoTemplate.aggregate`, `Document.parse`) is not modelled. JWT handling, controllers, the project read-model DTOs and the comment and tryout repository interfaces are outside this core.
- ProjectDomain.ProjectTryout.CreateProjectMember: `LocalDateTime.now()` becomes the parameter `now`. Timestamps are integers, not date-times.
- ProjectDomain.ProjectTryout.ToDoc: the tryout class has no profile image URL, but the join projection reads one from the stored document. The document type carries it as optional, and a document written from the class has none.
