/**
  The blog routes of controllers/blogLists.js as a store of blog documents.
  The collection behind `Blog.find`, `Blog.findById`, `blog.save`,
  `Blog.findByIdAndUpdate` and `Blog.findByIdAndDelete` is the map `blogs`
  of class `BlogStore`; every handler is a method that returns the response
  it sends (status and JSON body) and changes the map as the handler's
  database call does.
*/
module BlogLists {
  import opened Wrappers

  /**
    A document id. The database assigns a fresh one on every save; the model
    allocates them from a counter, so each new id is larger than all earlier ones.
  */
  type Id = nat

  /**
    A stored blog document. Every field is what was written into it, and a
    field the request left `undefined` is `None`.
  */
  datatype Blog = Blog(title: Option<string>, author: Option<string>, url: Option<string>, likes: Option<int>)

  /** The parts of `request.body` that the handlers read. */
  datatype Body = Body(title: Option<string>, author: Option<string>, url: Option<string>, likes: Option<int>)

  /** A document as it goes out in a response: its id with its fields. */
  datatype Doc = Doc(id: Id, blog: Blog)

  /** The JSON a handler sends, or none (`response.end()`). */
  datatype Json = NoContent | One(doc: Doc) | All(docs: seq<Doc>) | Error(error: string)

  datatype Reply = Reply(status: int, json: Json)

  const MissingFields := "title or url missing"

  // ---------------------------------------------------------------------------
  // JavaScript truthiness of the two kinds of fields read with `!` and `||`

  /**
    A string field is truthy when it is present and not the empty string:
    `undefined` and `""` are the only falsy values a string field can hold.
  */
  predicate IsTruthy(s: Option<string>): (b: bool)
    ensures b <==> s != None && s != Some("")
  {
    s.Some? && s.value != ""
  }

  /** `likes || 0`: a present, non-zero number is kept; absent or 0 gives 0. */
  function LikesOrZero(likes: Option<int>): (r: int)
    ensures likes.Some? && likes.value != 0 ==> r == likes.value
    ensures likes.None? ==> r == 0
    ensures r == 0 ==> likes.None? || likes.value == 0
  {
    match likes
    case Some(n) => if n != 0 then n else 0
    case None => 0
  }

  /** The document that POST builds from the request body before validating it. */
  function NewBlog(body: Body): (b: Blog)
    ensures b.title == body.title && b.author == body.author && b.url == body.url
    ensures b.likes.Some? && b.likes.value == LikesOrZero(body.likes)
  {
    Blog(body.title, body.author, body.url, Some(LikesOrZero(body.likes)))
  }

  /** The replacement record that PATCH builds from the four body fields. */
  function Replacement(body: Body): (b: Blog)
    ensures b.title == body.title && b.author == body.author
    ensures b.url == body.url && b.likes == body.likes
  {
    Blog(body.title, body.author, body.url, body.likes)
  }

  // ---------------------------------------------------------------------------
  // Listing the collection

  /** The documents whose ids are below `n`, in increasing id order. */
  function Listing(blogs: map<Id, Blog>, n: nat): (docs: seq<Doc>)
    ensures forall i :: 0 <= i < |docs| ==> docs[i].id < n && docs[i].id in blogs && blogs[docs[i].id] == docs[i].blog
    ensures forall id :: id in blogs && id < n ==> Doc(id, blogs[id]) in docs
    ensures forall i, j :: 0 <= i < j < |docs| ==> docs[i].id < docs[j].id
    decreases n
  {
    if n == 0 then []
    else
      var k := n - 1;
      Listing(blogs, k) + (if k in blogs then [Doc(k, blogs[k])] else [])
  }

  class BlogStore {
    /** The collection: every stored document under its id. */
    var blogs: map<Id, Blog>
    /** The id the next save is given. */
    var nextId: Id

    /** Every stored id was handed out before `nextId`. */
    ghost predicate Valid()
      reads this
    {
      forall id :: id in blogs ==> id < nextId
    }

    constructor ()
      ensures Valid() && blogs == map[]
    {
      blogs := map[];
      nextId := 0;
    }

    /** GET `/`: every stored document, each exactly once, and nothing else. */
    method GetAll() returns (reply: Reply)
      requires Valid()
      ensures reply.status == 200 && reply.json.All?
      ensures forall d :: d in reply.json.docs ==> d.id in blogs && blogs[d.id] == d.blog
      ensures forall id :: id in blogs ==> Doc(id, blogs[id]) in reply.json.docs
      ensures forall i, j :: 0 <= i < j < |reply.json.docs| ==> reply.json.docs[i].id < reply.json.docs[j].id
    {
      var docs := Listing(blogs, nextId);
      reply := Reply(200, All(docs));
    }

    /** GET `/:id`: the stored document, or 404 with no body when there is none. */
    method Get(id: Id) returns (reply: Reply)
      ensures id in blogs ==> reply == Reply(200, One(Doc(id, blogs[id])))
      ensures id !in blogs ==> reply == Reply(404, NoContent)
    {
      if id in blogs {
        reply := Reply(200, One(Doc(id, blogs[id])));
      } else {
        reply := Reply(404, NoContent);
      }
    }

    /**
      POST `/`: a falsy `title` or a falsy `url` is answered with 400 and
      nothing is saved; otherwise the built document is saved under a fresh id
      and answered with 201.
    */
    method Create(body: Body) returns (reply: Reply)
      requires Valid()
      modifies this
      ensures Valid()
      ensures !IsTruthy(body.title) || !IsTruthy(body.url) ==>
        reply == Reply(400, Error(MissingFields)) && blogs == old(blogs) && nextId == old(nextId)
      ensures IsTruthy(body.title) && IsTruthy(body.url) ==>
        && reply.status == 201 && reply.json.One?
        && reply.json.doc.blog == NewBlog(body)
        && reply.json.doc.id !in old(blogs)
        && blogs == old(blogs)[reply.json.doc.id := NewBlog(body)]
        && |blogs| == |old(blogs)| + 1
    {
      var blog := NewBlog(body);
      if !IsTruthy(body.title) || !IsTruthy(body.url) {
        reply := Reply(400, Error(MissingFields));
      } else {
        var id := nextId;
        blogs := blogs[id := blog];
        nextId := nextId + 1;
        reply := Reply(201, One(Doc(id, blog)));
      }
    }

    /**
      PATCH `/:id`: when the id is stored, its document is replaced by the
      record built from the body and the new document is answered; otherwise
      404 and nothing changes.
    */
    method Patch(id: Id, body: Body) returns (reply: Reply)
      requires Valid()
      modifies this
      ensures Valid() && nextId == old(nextId)
      ensures id !in old(blogs) ==> reply == Reply(404, NoContent) && blogs == old(blogs)
      ensures id in old(blogs) ==>
        && reply == Reply(200, One(Doc(id, Replacement(body))))
        && blogs == old(blogs)[id := Replacement(body)]
      ensures blogs.Keys == old(blogs).Keys
      ensures forall k :: k in old(blogs) && k != id ==> blogs[k] == old(blogs)[k]
    {
      var blog := Replacement(body);
      if id in blogs {
        blogs := blogs[id := blog];
        reply := Reply(200, One(Doc(id, blog)));
      } else {
        reply := Reply(404, NoContent);
      }
    }

    /** DELETE `/:id`: the document is gone afterwards; 204 whether or not it was there. */
    method Delete(id: Id) returns (reply: Reply)
      requires Valid()
      modifies this
      ensures Valid() && nextId == old(nextId)
      ensures reply == Reply(204, NoContent)
      ensures blogs == old(blogs) - {id}
      ensures id !in blogs
      ensures forall k :: k in old(blogs) && k != id ==> k in blogs && blogs[k] == old(blogs)[k]
      ensures id in old(blogs) ==> |blogs| == |old(blogs)| - 1
      ensures id !in old(blogs) ==> blogs == old(blogs)
    {
      blogs := blogs - {id};
      reply := Reply(204, NoContent);
    }
  }

  // ---------------------------------------------------------------------------
  // Clients of the store, stating what follows from the handlers' contracts

  /** Deleting twice answers the same and leaves the store as deleting once does. */
  method DeleteTwice(store: BlogStore, id: Id) returns (first: Reply, second: Reply)
    requires store.Valid()
    modifies store
    ensures store.Valid()
    ensures first == second == Reply(204, NoContent)
    ensures store.blogs == old(store.blogs) - {id}
  {
    first := store.Delete(id);
    ghost var once := store.blogs;
    second := store.Delete(id);
    assert store.blogs == once;
  }

  /** A saved blog can be fetched back; once deleted, it is absent from GET `/` and GET `/:id`. */
  method CreateFetchDelete(store: BlogStore, body: Body) returns (created: Reply, fetched: Reply, after: Reply, gone: Reply)
    requires store.Valid()
    requires IsTruthy(body.title) && IsTruthy(body.url)
    modifies store
    ensures store.Valid()
    ensures created.status == 201 && created.json.One?
    ensures fetched == Reply(200, created.json)
    ensures after.json.All? && forall d :: d in after.json.docs ==> d.id != created.json.doc.id
    ensures gone == Reply(404, NoContent)
    ensures store.blogs == old(store.blogs)
  {
    created := store.Create(body);
    fetched := store.Get(created.json.doc.id);
    var _ := store.Delete(created.json.doc.id);
    after := store.GetAll();
    gone := store.Get(created.json.doc.id);
  }
}
