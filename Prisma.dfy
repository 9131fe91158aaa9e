/**
  The two stores the controllers change: the relational database reached
  through the ORM client (tables `users` and `news`, auto-incremented ids)
  and the public image directory the upload helpers write to and delete from.
 */
module Prisma {
  import opened Http
  import opened Records

  /** One effect on the image directory, in the order the controllers cause them. */
  datatype MediaOp = Stored(name: string) | Removed(name: string)

  class Database {
    var users: UserTable
    var news: NewsTable
    var nextUserId: int
    var nextNewsId: int
    /** False when the store cannot be reached: then every query throws. */
    var online: bool
    /**
      False when the store answers reads but rejects the handler's write (a
      constraint violation, a connection lost mid-request): then the insert,
      update or delete throws after the handler's earlier steps have run.
     */
    var writable: bool

    /** Constraints the schema enforces: unique emails, ids below the next auto-increment value. */
    ghost predicate Valid()
      reads this
    {
      && EmailsUnique(users)
      && 1 <= nextUserId && 1 <= nextNewsId
      && (forall id :: id in users ==> 1 <= id < nextUserId)
      && (forall id :: id in news ==> 1 <= id < nextNewsId)
    }

    constructor (online: bool, writable: bool)
      ensures Valid()
      ensures users == map[] && news == map[] && this.online == online && this.writable == writable
    {
      users, news := map[], map[];
      nextUserId, nextNewsId := 1, 1;
      this.online := online;
      this.writable := writable;
    }

    /** Insert a user: a fresh id, one more row, nothing else changed. */
    method CreateUser(u: User) returns (id: int)
      requires Valid() && writable && !EmailTaken(users, u.email)
      modifies this`users, this`nextUserId
      ensures Valid()
      ensures id == old(nextUserId) && id !in old(users)
      ensures users == old(users)[id := u] && nextUserId == old(nextUserId) + 1
    {
      id := nextUserId;
      users := users[id := u];
      nextUserId := nextUserId + 1;
    }

    /** Set the profile field of an existing user row. */
    method SetProfile(id: int, profile: string)
      requires Valid() && writable && id in users
      modifies this`users
      ensures Valid()
      ensures users == old(users)[id := old(users)[id].(profile := Some(profile))]
    {
      users := users[id := users[id].(profile := Some(profile))];
    }

    /** Insert a news row under the next id. */
    method CreateNews(n: News) returns (id: int)
      requires Valid() && writable
      modifies this`news, this`nextNewsId
      ensures Valid()
      ensures id == old(nextNewsId) && id !in old(news)
      ensures news == old(news)[id := n] && nextNewsId == old(nextNewsId) + 1
    {
      id := nextNewsId;
      news := news[id := n];
      nextNewsId := nextNewsId + 1;
    }

    /** Update a news row: the fields present in the data are overwritten. */
    method UpdateNews(id: int, p: NewsPayload, image: Option<string>)
      requires Valid() && writable && id in news
      modifies this`news
      ensures Valid()
      ensures news == old(news)[id := Revised(old(news)[id], p, image)]
    {
      news := news[id := Revised(news[id], p, image)];
    }

    /** Delete a news row by id. */
    method DeleteNews(id: int)
      requires Valid() && writable && id in news
      modifies this`news
      ensures Valid()
      ensures news == old(news) - {id}
    {
      news := news - {id};
    }
  }

  /** A row after an update with a validated payload and, possibly, a new image name. */
  function Revised(n: News, p: NewsPayload, image: Option<string>): News
  {
    News(p.title, p.description, if image.Some? then image.value else n.image, n.userId)
  }

  class MediaStore {
    /** Names of the files present in the public image directory. */
    var files: set<string>
    /** Every store and removal, oldest first. */
    var log: seq<MediaOp>

    constructor ()
      ensures files == {} && log == []
    {
      files, log := {}, [];
    }

    /** Write a file under `name` (an existing file of that name is overwritten). */
    method Store(name: string)
      modifies this
      ensures files == old(files) + {name}
      ensures log == old(log) + [Stored(name)]
    {
      files := files + {name};
      log := log + [Stored(name)];
    }

    /** `removeImage(name)`: delete the file; a missing file is not an error. */
    method Remove(name: string)
      modifies this
      ensures files == old(files) - {name}
      ensures log == old(log) + [Removed(name)]
    {
      files := files - {name};
      log := log + [Removed(name)];
    }
  }
}
