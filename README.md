# Blog list service: statistics, blog routes and login

A Dafny model of three pieces of a small Express/Mongoose blog-list service:

- **Statistics helpers** (`utils/list_helper.js`), module `ListHelper`:
  `dummy`, `totalLikes` and `favoriteBlog` as pure functions that evaluate
  the way `Array.prototype.reduce` does, left to right. `totalLikes` is
  proved equal to a plain sum, additive over concatenation and 0 on the empty
  list. `favoriteBlog` is proved to return the blog at the LAST position with
  maximal likes, because the reducer's comparison `prev.likes > current.likes`
  is strict.
- **Blog routes** (`controllers/blogLists.js`), module `BlogLists`: the
  collection is the `map<Id, Blog>` field of class `BlogStore`. GET `/`,
  GET `/:id`, POST `/`, PATCH `/:id` and DELETE `/:id` are its methods. Each
  returns the reply it sends (status plus JSON body) and states the whole new
  state of the map. JavaScript truthiness is written out: `title` and `url`
  are `Option<string>`, and absent or `""` counts as falsy. `likes` is
  `Option<int>`, and `likes || 0` gives 0 when it is absent or 0.
- **Login** (`controllers/login.js`), module `Login`: a function over a user
  table. It takes the password check, the token signer, the signing secret
  and the clock as parameters.

Modules: `Wrappers` (an `Option` type standing for a JavaScript value that
may be `undefined`), `ListHelper`, `BlogLists`, `Login`.

On ties, `favoriteBlog` returns the LAST maximal blog, because
`prev.likes > current.likes` is strict (`ListHelper.FavoriteBlogIsLastMaximum`,
`ListHelper.TieKeepsLast`).

## Model

| member | source | states |
|---|---|---|
| `ListHelper.Dummy` | utils/list_helper.js:1-7 | the answer is 1 for every list, the empty one included |
| `ListHelper.SumFrom` | utils/list_helper.js:10 | the `reduce` of `(sum, blog) => sum + blog.likes` from accumulator `acc` gives `acc` plus the sum of all likes |
| `ListHelper.TotalLikes` | utils/list_helper.js:9-11 | `totalLikes` equals the sum of every blog's likes, and is 0 on the empty list |
| `ListHelper.TotalLikesAppend` | utils/list_helper.js:9-11 | `totalLikes(a + b) == totalLikes(a) + totalLikes(b)` |
| `ListHelper.TotalLikesSnoc` | utils/list_helper.js:10 | appending one blog adds exactly its likes to the total |
| `ListHelper.Keep` | utils/list_helper.js:14 | one reducer step returns one of its two arguments, with likes at least both of theirs; on equal likes it returns `current` |
| `ListHelper.LastMaximumIsUnique` | utils/list_helper.js:14 | at most one position of a list is the last position with maximal likes |
| `ListHelper.FavoriteFrom` | utils/list_helper.js:14 | the `reduce` of the strict-comparison reducer from accumulator `prev` returns `prev` or a blog of `rest`, with at least the likes of `prev` and of every blog in `rest` |
| `ListHelper.FavoriteFromIsLastMaximum` | utils/list_helper.js:14 | reducing from `prev` over `rest` yields the element at the last maximal position of `[prev] + rest` |
| `ListHelper.FavoriteBlogIsLastMaximum` | utils/list_helper.js:13-16 | on a non-empty list, `favoriteBlog` is the blog at the last position with maximal likes; every later blog has strictly fewer likes |
| `ListHelper.FavoriteBlog` | utils/list_helper.js:13-16 | on a non-empty list, the result is an element of the input and no blog of the input has more likes |
| `ListHelper.FavoriteBlogSingleton` | utils/list_helper.js:13-16 | a one-blog list returns that blog |
| `ListHelper.FavoriteBlogTieGoesLater` | utils/list_helper.js:14 | if a maximal blog is followed by an equally liked one, the result comes from that later position or a later one still |
| `ListHelper.TieKeepsLast` | utils/list_helper.js:14 | for any two blogs with equal likes, the second is returned, in either order |
| `ListHelper.InitialBlogsFixture` | tests/test_helper.js:3-16 | the two-blog fixture totals 30 likes, and its second blog is the favourite |
| `BlogLists.IsTruthy` | controllers/blogLists.js:33 | a string field passes `!body.title` / `!body.url` exactly when it is neither `undefined` nor the empty string |
| `BlogLists.LikesOrZero` | controllers/blogLists.js:31 | the POST default for likes: a present non-zero number is kept, and an absent one or 0 gives 0 |
| `BlogLists.NewBlog` | controllers/blogLists.js:27-32 | the built document copies title, author and url from the body; its likes is `body.likes` when truthy and 0 otherwise |
| `BlogLists.Replacement` | controllers/blogLists.js:46-51 | the replacement record carries the four body fields as given, `undefined` ones included |
| `BlogLists.Listing` | controllers/blogLists.js:7-8 | lists exactly the stored documents below an id bound, each once, in increasing id order |
| `BlogLists.BlogStore.GetAll` | controllers/blogLists.js:6-9 | 200 with every stored document exactly once and nothing else; the store is not modified |
| `BlogLists.BlogStore.Get` | controllers/blogLists.js:11-21 | 200 with the stored document when the id is present, 404 with no body otherwise; the store is not modified |
| `BlogLists.BlogStore.Create` | controllers/blogLists.js:24-39 | a falsy title or url gives 400 `'title or url missing'` with the store unchanged; otherwise 201 with the built document, which is stored under an id that was not in use, while every earlier entry is kept and the count grows by one |
| `BlogLists.BlogStore.Patch` | controllers/blogLists.js:42-59 | an absent id gives 404 and nothing changes; a present id gets the replacement record under the same id, while the other entries stay as they were, and the reply is 200 with the new document |
| `BlogLists.BlogStore.Delete` | controllers/blogLists.js:61-65 | always 204 with no body; afterwards the id is absent, the other entries are unchanged, and the count drops by one if the id was stored |
| `BlogLists.DeleteTwice` | controllers/blogLists.js:61-65 | deleting the same id twice gives the same reply both times and leaves the store as one delete does |
| `BlogLists.CreateFetchDelete` | tests/blogs_api.test.js:208-218 | a valid POST is answered 201; the new id can be fetched back; after the delete it is missing from GET `/` and GET `/:id` answers 404 |
| `Login.FindOne` | controllers/login.js:12 | returns the first user with the username, or none exactly when no user has it |
| `Login.TokenClaims` | controllers/login.js:23-28 | the signed payload is `{username, id}` of the user; `exp` is `iat` plus 604800 seconds |
| `Login.LoginReply` | controllers/login.js:9-33 | the reply is 401 with the one fixed message, or 200; it is 200 exactly when a user was found and the password check passed on that user's hash, and then it carries the signed token and the user's `username` and `name` |
| `Login.UnknownUserRefused` | controllers/login.js:12-21 | an unknown username gives 401 `'invalid username or password'` |
| `Login.WrongPasswordIndistinguishable` | controllers/login.js:13-21 | a known user with a wrong password gets exactly the reply an unknown username gets |
| `Login.CompareUnusedWithoutUser` | controllers/login.js:13-15 | when no user matches, the reply does not depend on the password check at all |
| `Login.CompareUsedOnFoundHashOnly` | controllers/login.js:13-15 | when a user matches, the reply depends on the password check only through its answer for the given password and that user's hash |
| `Login.SuccessfulLogin` | controllers/login.js:23-32 | a 200 comes from the first user with that username, whose hash the password check accepted; the token signs exactly `{username, id}` of that user, issued now and expiring 604800 seconds later |

## Left out

- Database I/O, Express routing, `async`/`await` and concurrent requests: every handler is one atomic step on the in-memory map, so races between a lookup and a write are not modelled.
- Ids. Mongo ObjectIds become natural numbers drawn from a counter. A malformed id in the URL makes Mongoose throw a cast error, and that path is not modelled: every `Id` is well formed.
- GET `/` order: `Blog.find({})` answers in the database's natural order. The model lists documents in increasing id order, which is insertion order under the counter.
- `BlogLists.BlogStore.Patch`: the model takes the clearing reading of `findByIdAndUpdate`. A field the body leaves `undefined` is absent (`None`) from the stored document and from the 200 reply. If Mongoose skips `undefined` keys instead, those fields keep their old values, which the model does not capture.
- Request bodies: only the types the handlers expect are modelled. Strings for `title`, `author`, `url`, `username` and `password`; an integer for `likes`. A JSON value of another type, and JavaScript's `NaN`, are not modelled.
- Login with an `undefined` username or password: Mongoose and bcrypt library behaviour, so not modelled.
- `ListHelper.FavoriteBlog`: on an empty list `reduce` without a seed throws a `TypeError`. The model makes a non-empty list a precondition instead of modelling that error.
- `ListHelper.TotalLikes`: a blog without numeric `likes` would make the JavaScript sum `NaN`. The statistics record always has an integer `likes`.
- bcrypt hashing and comparison, and JWT signing and verification: opaque. They are the parameters `compare` and `sign` of `Login.LoginReply`, as are `process.env.SECRET` and the clock (`now`).
- The `toJSON` projection of `_id` to `id`: it lives in `models/blogList`, which is not part of this model. Documents go out as `Doc(id, blog)`.
- Token checks, ownership checks and the owner's list of blog ids: `controllers/blogLists.js` does none of these.
- User registration, with its username uniqueness and 3-character minimums: those rules live in controllers and models that are not part of this model.
- `mostBlogs` and `mostLikes`: `utils/list_helper.js` does not define them.
- The database seeding script `mongo.js` and the test harnesses: I/O only. The fixture of `tests/test_helper.js` serves as concrete data in `ListHelper.InitialBlogsFixture`.
