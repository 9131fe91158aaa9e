/**
  The two record types of the relational store and the lookups the
  controllers make against them. The tables themselves are maps from the
  auto-incremented id to the row.
 */
module Records {
  import opened Http

  datatype User = User(name: string, email: string, password: string, profile: Option<string>)

  datatype News = News(title: string, description: string, image: string, userId: int)

  type UserTable = map<int, User>
  type NewsTable = map<int, News>

  /** The `@unique` constraint on `users.email`. */
  ghost predicate EmailsUnique(users: UserTable)
  {
    forall a, b :: a in users && b in users && users[a].email == users[b].email ==> a == b
  }

  ghost predicate EmailTaken(users: UserTable, email: string)
  {
    exists id :: id in users && users[id].email == email
  }

  /**
    The unique-key lookup of a user by email: the id of the one user with
    that email, if any.
   */
  function FindUserByEmail(users: UserTable, email: string): (r: Option<int>)
    requires EmailsUnique(users)
    ensures r.Some? <==> EmailTaken(users, email)
    ensures r.Some? ==> r.value in users && users[r.value].email == email
    ensures forall id :: id in users && users[id].email == email ==> r == Some(id)
  {
    if exists id :: id in users && users[id].email == email then
      var id :| id in users && users[id].email == email;
      Some(id)
    else
      None
  }

  /** Inserting a user whose email is not yet stored keeps emails unique. */
  lemma InsertFreshEmailKeepsUnique(users: UserTable, id: int, u: User)
    requires EmailsUnique(users) && !EmailTaken(users, u.email) && id !in users
    ensures EmailsUnique(users[id := u])
  {
  }

  function ToRecord(id: int, u: User): UserRecord
  {
    UserRecord(id, u.name, u.email, u.password, u.profile)
  }

  function NewsToRecord(id: int, n: News): NewsRecord
  {
    NewsRecord(id, n.title, n.description, n.image, n.userId)
  }

  /**
    A news row joined with the id, name and profile of its owner; the
    author is absent only if the owning user row is missing.
   */
  function ItemOf(news: NewsTable, users: UserTable, id: int): NewsItem
    requires id in news
  {
    var n := news[id];
    var author := if n.userId in users
                  then Some(Author(n.userId, users[n.userId].name, users[n.userId].profile))
                  else None;
    NewsItem(NewsToRecord(id, n), author)
  }

  /** The references from news rows to stored images: every row's image file exists, and no two rows share one. */
  ghost predicate ImagesBacked(news: NewsTable, files: set<string>)
  {
    && (forall id :: id in news ==> news[id].image in files)
    && (forall a, b :: a in news && b in news && news[a].image == news[b].image ==> a == b)
  }

  /** Adding a row whose image is newly stored keeps every row backed. */
  lemma InsertKeepsImagesBacked(news: NewsTable, files: set<string>, id: int, row: News)
    requires ImagesBacked(news, files)
    requires id !in news && row.image !in files
    ensures ImagesBacked(news[id := row], files + {row.image})
  {
  }

  /** Replacing a row's image by a newly stored one and removing the old file keeps every row backed. */
  lemma ReplaceImageKeepsImagesBacked(news: NewsTable, files: set<string>, id: int, row: News)
    requires ImagesBacked(news, files)
    requires id in news && row.image !in files
    ensures ImagesBacked(news[id := row], files + {row.image} - {news[id].image})
  {
    var news' := news[id := row];
    var files' := files + {row.image} - {news[id].image};
    forall k | k in news'
      ensures news'[k].image in files'
    {
      if k != id {
        assert news[k].image != news[id].image;
      }
    }
  }

  /** Deleting a row together with its image file keeps every remaining row backed. */
  lemma DeleteKeepsImagesBacked(news: NewsTable, files: set<string>, id: int)
    requires ImagesBacked(news, files)
    requires id in news
    ensures ImagesBacked(news - {id}, files - {news[id].image})
  {
    forall k | k in news - {id}
      ensures news[k].image in files - {news[id].image}
    {
      assert news[k].image != news[id].image;
    }
  }
}
