/**
  The news resource: a paginated listing, creation with a required image,
  lookup by id, and update and deletion that only the owning user may do.
  Creation and update store the uploaded image; update with a new image and
  deletion remove the image the row referred to.
 */
module NewsController {
  import opened Http
  import opened Records
  import opened Prisma
  import opened Pagination

  const ImageRequiredMessage := "Image Field Is Required"
  /** The 400 body for a non-owner's update, spelled as the controller spells it. */
  const UpdateForbiddenMessage := "UnAtuhorized"
  const DeleteForbiddenMessage := "UnAuthorized"

  /**
    The order in which the store returns the rows of the news table: every
    row exactly once. Which order that is belongs to the store and is not
    modelled.
   */
  ghost predicate IsListing(order: seq<int>, news: NewsTable)
  {
    && |order| == |news|
    && (forall i :: 0 <= i < |order| ==> order[i] in news)
    && (forall i, j :: 0 <= i < j < |order| ==> order[i] != order[j])
  }

  /** `GET /news?page&limit`. */
  function Index(news: NewsTable, users: UserTable, order: seq<int>, page: Option<int>, limit: Option<int>): (r: Response)
    requires IsListing(order, news)
    ensures r.code == 200 && r.payload.NewsPage? && r.payload.status == 200
    // the metadata echoes the normalised page and limit and counts the pages of the whole table
    ensures r.payload.metadata.currentPage == NormalisePage(page) >= 1
    ensures r.payload.metadata.currentLimit == NormaliseLimit(limit)
    ensures 1 <= r.payload.metadata.currentLimit <= MaxLimit
    ensures var l := r.payload.metadata.currentLimit;
            r.payload.metadata.totalPages * l >= |news|
            && (r.payload.metadata.totalPages == 0 || (r.payload.metadata.totalPages - 1) * l < |news|)
    // at most `limit` items, the listing's records from offset `skip` on, each joined with its author
    ensures var skip := Skip(NormalisePage(page), NormaliseLimit(limit));
            var items := r.payload.items;
            && |items| <= NormaliseLimit(limit)
            && |items| == PageLength(|news|, NormalisePage(page), NormaliseLimit(limit))
            && (|items| > 0 ==> skip + |items| <= |news|)
    ensures var skip := Skip(NormalisePage(page), NormaliseLimit(limit));
            forall i :: 0 <= i < |r.payload.items| ==>
              skip + i < |order| && r.payload.items[i] == ItemOf(news, users, order[skip + i])
    // the page has items exactly when its number is within the page count
    ensures |r.payload.items| > 0 <==> r.payload.metadata.currentPage <= r.payload.metadata.totalPages
  {
    var page := NormalisePage(page);
    var limit := NormaliseLimit(limit);
    var skip := Skip(page, limit);
    var n := PageLength(|order|, page, limit);
    var items := seq(n, i requires 0 <= i < n => ItemOf(news, users, order[skip + i]));
    NonEmptyPageIffWithinTotal(|news|, page, limit);
    Response(200, NewsPage(200, items, PageMeta(TotalPages(|news|, limit), page, limit)))
  }

  /** `GET /news/:id`: the row with its author, or `null` when there is none. */
  function Show(news: NewsTable, users: UserTable, online: bool, id: Option<int>): (r: Response)
    ensures r.code == 200 <==> online && id.Some?
    ensures r.code != 200 ==> r == ServerError()
    ensures r.code == 200 ==> r.payload.NewsFound? && r.payload.status == 200
                              && (r.payload.found.Some? <==> id.value in news)
    ensures r.code == 200 && id.value in news ==>
              && r.payload.found.value.news == NewsToRecord(id.value, news[id.value])
              && r.payload.found.value == ItemOf(news, users, id.value)
  {
    if !online || id.None? then ServerError()
    else if id.value in news then Response(200, NewsFound(200, Some(ItemOf(news, users, id.value))))
    else Response(200, NewsFound(200, None))
  }

  /** `POST /news` by the authenticated `user`; `imageName` is the name the upload helper picks. */
  method Store(db: Database, media: MediaStore, user: Claims, body: Body, files: map<string, Upload>,
               imageName: string, svc: Services) returns (r: Response)
    requires db.Valid()
    modifies db`news, db`nextNewsId, media
    ensures db.Valid()
    // three rejections, in this order, each leaving both stores untouched
    ensures svc.newsSchema(body).Invalid? ==>
              r == Response(400, ValidationErrors(svc.newsSchema(body).messages))
    ensures svc.newsSchema(body).Valid? && |files| == 0 ==>
              r == FieldError("image", ImageRequiredMessage)
    ensures svc.newsSchema(body).Valid? && |files| != 0 && CheckImage(svc, FileUnder(files, "image")).Some? ==>
              r == FieldError("image", CheckImage(svc, FileUnder(files, "image")).value)
    ensures r.code == 400 ==>
              db.news == old(db.news) && media.files == old(media.files) && media.log == old(media.log)
    // only a created row moves the auto-increment counter
    ensures r.code != 200 ==> db.nextNewsId == old(db.nextNewsId)
    // success: the image is stored and exactly one row is added, owned by the caller
    ensures r.code == 200 <==>
              svc.newsSchema(body).Valid? && |files| != 0 && "image" in files
              && CheckImage(svc, FileUnder(files, "image")).None? && db.online && db.writable
    ensures r.code == 200 ==>
              var p := svc.newsSchema(body).payload;
              var row := News(p.title, p.description, imageName, user.id);
              && old(db.nextNewsId) !in old(db.news)
              && db.news == old(db.news)[old(db.nextNewsId) := row]
              && db.nextNewsId == old(db.nextNewsId) + 1
              && r == Response(200, NewsCreated(200, "News Created Successfully!", NewsToRecord(old(db.nextNewsId), row)))
    ensures r.code == 200 ==>
              media.files == old(media.files) + {imageName} && media.log == old(media.log) + [Stored(imageName)]
    // a failing or rejected insert comes after the upload: no row, but the image file stays
    ensures r.code == 500 ==> db.news == old(db.news)
    ensures r.code == 500 && "image" in files ==>
              media.files == old(media.files) + {imageName} && media.log == old(media.log) + [Stored(imageName)]
    ensures r.code == 500 && "image" !in files ==>
              media.files == old(media.files) && media.log == old(media.log)
    // files accepted by the checks but none under "image", or a store that fails the insert: the generic 500
    ensures svc.newsSchema(body).Valid? && |files| != 0 && CheckImage(svc, FileUnder(files, "image")).None?
            && (!db.online || !db.writable || "image" !in files) ==>
              r == ServerError()
    ensures r.code == 200 || r.code == 400 || r.code == 500
    ensures ImagesBacked(old(db.news), old(media.files)) && imageName !in old(media.files) ==>
              ImagesBacked(db.news, media.files)
  {
    var v := svc.newsSchema(body);
    if v.Invalid? {
      return Response(400, ValidationErrors(v.messages));
    }
    if |files| == 0 {
      return FieldError("image", ImageRequiredMessage);
    }
    var image := FileUnder(files, "image");
    var message := CheckImage(svc, image);
    if message.Some? {
      return FieldError("image", message.value);
    }
    if image.None? {
      // the upload helper is handed `undefined`; it is assumed to throw
      return ServerError();
    }
    ghost var before := db.news;
    media.Store(imageName);
    if !db.online || !db.writable {
      return ServerError();
    }
    var p := v.payload;
    var row := News(p.title, p.description, imageName, user.id);
    var id := db.CreateNews(row);
    if ImagesBacked(before, old(media.files)) && imageName !in old(media.files) {
      InsertKeepsImagesBacked(before, old(media.files), id, row);
    }
    r := Response(200, NewsCreated(200, "News Created Successfully!", NewsToRecord(id, row)));
  }

  /** Whether the path names an existing row owned by `user`. */
  ghost predicate OwnedBy(news: NewsTable, id: Option<int>, user: Claims)
  {
    id.Some? && id.value in news && news[id.value].userId == user.id
  }

  /** `PUT /news/:id` by the authenticated `user`; `imageName` is the name the upload helper picks. */
  method Update(db: Database, media: MediaStore, user: Claims, id: Option<int>, body: Body,
                files: map<string, Upload>, imageName: string, svc: Services) returns (r: Response)
    requires db.Valid()
    modifies db`news, media
    ensures db.Valid()
    // the lookup fails, or finds nothing and the owner check dereferences null
    ensures !db.online || id.None? || id.value !in old(db.news) ==> r == ServerError()
    // ownership is decided before the body is looked at
    ensures db.online && id.Some? && id.value in old(db.news) && old(db.news)[id.value].userId != user.id ==>
              r == Response(400, Message(UpdateForbiddenMessage))
    ensures OwnedBy(old(db.news), id, user) && db.online && svc.newsSchema(body).Invalid? ==>
              r == Response(400, ValidationErrors(svc.newsSchema(body).messages))
    ensures OwnedBy(old(db.news), id, user) && db.online && svc.newsSchema(body).Valid?
            && "image" in files && CheckImage(svc, Some(files["image"])).Some? ==>
              r == FieldError("image", CheckImage(svc, Some(files["image"])).value)
    ensures r.code == 200 <==>
              OwnedBy(old(db.news), id, user) && db.online && svc.newsSchema(body).Valid?
              && ("image" in files ==> CheckImage(svc, Some(files["image"])).None?) && db.writable
    // no outcome but success changes the table
    ensures r.code != 200 ==> db.news == old(db.news)
    // a failed lookup and every 400 leave the images as they were
    ensures r.code == 400 || !db.online || id.None? || id.value !in old(db.news) ==>
              media.files == old(media.files) && media.log == old(media.log)
    // an accepted update whose write is rejected: 500 after the file operations, so a new
    // image is stored, the old file is gone and the unchanged row still names it
    ensures OwnedBy(old(db.news), id, user) && db.online && svc.newsSchema(body).Valid?
            && ("image" in files ==> CheckImage(svc, Some(files["image"])).None?) && !db.writable ==>
              && r == ServerError()
              && ("image" in files ==>
                    var old_image := old(db.news)[id.value].image;
                    && media.files == old(media.files) + {imageName} - {old_image}
                    && media.log == old(media.log) + [Stored(imageName), Removed(old_image)]
                    && !ImagesBacked(db.news, media.files))
              && ("image" !in files ==> media.files == old(media.files) && media.log == old(media.log))
    // an owner's update with a new image: the new name replaces the old, whose file is removed once
    ensures r.code == 200 && "image" in files ==>
              var old_row := old(db.news)[id.value];
              && db.news == old(db.news)[id.value := Revised(old_row, svc.newsSchema(body).payload, Some(imageName))]
              && media.files == old(media.files) + {imageName} - {old_row.image}
              && media.log == old(media.log) + [Stored(imageName), Removed(old_row.image)]
    // without a new image, the row keeps its image and no file is touched
    ensures r.code == 200 && "image" !in files ==>
              && db.news == old(db.news)[id.value := Revised(old(db.news)[id.value], svc.newsSchema(body).payload, None)]
              && media.files == old(media.files) && media.log == old(media.log)
    ensures r.code == 200 ==> r == Response(200, Message("News Updated Successfully!"))
    ensures db.writable && ImagesBacked(old(db.news), old(media.files)) && imageName !in old(media.files) ==>
              ImagesBacked(db.news, media.files)
  {
    if !db.online || id.None? || id.value !in db.news {
      return ServerError();
    }
    var key := id.value;
    var existing := db.news[key];
    if user.id != existing.userId {
      return Response(400, Message(UpdateForbiddenMessage));
    }
    var v := svc.newsSchema(body);
    if v.Invalid? {
      return Response(400, ValidationErrors(v.messages));
    }
    ghost var before := db.news;
    var newImage: Option<string> := None;
    if "image" in files {
      var message := CheckImage(svc, Some(files["image"]));
      if message.Some? {
        return FieldError("image", message.value);
      }
      media.Store(imageName);
      newImage := Some(imageName);
      media.Remove(existing.image);
      if !db.writable {
        assert db.news[key].image !in media.files;
        return ServerError();
      }
      if ImagesBacked(before, old(media.files)) && imageName !in old(media.files) {
        ReplaceImageKeepsImagesBacked(before, old(media.files), key, Revised(existing, v.payload, newImage));
      }
    }
    if !db.writable {
      return ServerError();
    }
    db.UpdateNews(key, v.payload, newImage);
    r := Response(200, Message("News Updated Successfully!"));
  }

  /** `DELETE /news/:id` by the authenticated `user`. */
  method Destroy(db: Database, media: MediaStore, user: Claims, id: Option<int>) returns (r: Response)
    requires db.Valid()
    modifies db`news, media
    ensures db.Valid()
    ensures !db.online || id.None? ==> r == ServerError()
    // a missing row or another user's row: 401, nothing changed
    ensures db.online && id.Some? && !OwnedBy(old(db.news), id, user) ==>
              r == Response(401, Message(DeleteForbiddenMessage))
    ensures r.code == 200 <==> db.online && OwnedBy(old(db.news), id, user) && db.writable
    ensures r.code != 200 ==> db.news == old(db.news)
    ensures !db.online || !OwnedBy(old(db.news), id, user) ==>
              media.files == old(media.files) && media.log == old(media.log)
    // the owner's delete is rejected by the store: 500 after the image was removed,
    // so the row is kept and names a file that is gone
    ensures db.online && OwnedBy(old(db.news), id, user) && !db.writable ==>
              && r == ServerError()
              && media.files == old(media.files) - {old(db.news)[id.value].image}
              && media.log == old(media.log) + [Removed(old(db.news)[id.value].image)]
              && !ImagesBacked(db.news, media.files)
    // the owner's delete: that row's image is removed once and only that row is deleted
    ensures r.code == 200 ==>
              && db.news == old(db.news) - {id.value}
              && media.files == old(media.files) - {old(db.news)[id.value].image}
              && media.log == old(media.log) + [Removed(old(db.news)[id.value].image)]
              && r == Response(200, Message("News Deleted Successfully!"))
    ensures db.writable && ImagesBacked(old(db.news), old(media.files)) ==> ImagesBacked(db.news, media.files)
  {
    if !db.online || id.None? {
      return ServerError();
    }
    var key := id.value;
    if key !in db.news || user.id != db.news[key].userId {
      return Response(401, Message(DeleteForbiddenMessage));
    }
    ghost var before := db.news;
    var image := db.news[key].image;
    media.Remove(image);
    if !db.writable {
      assert db.news[key].image !in media.files;
      return ServerError();
    }
    db.DeleteNews(key);
    if ImagesBacked(before, old(media.files)) {
      DeleteKeepsImagesBacked(before, old(media.files), key);
    }
    r := Response(200, Message("News Deleted Successfully!"));
  }
}
