/**
  The profile endpoints: echo the authenticated user, and store a new
  profile image and record its name on a user row. The row is the one named
  in the path; the update does not compare it with the authenticated user.
 */
module ProfileController {
  import opened Http
  import opened Records
  import opened Prisma
  import opened Filenames

  const ProfileRequiredMessage := "Profile Image Is Required"

  /** This controller's catch blocks answer with a shorter message and no status field. */
  function ProfileServerError(): Response
  {
    Response(500, Message("Something Went Wrong!"))
  }

  /** `GET /profile`: the identity the auth middleware attached; the store is not consulted. */
  function Index(user: Claims): (r: Response)
    ensures r.code == 200 && r.payload.CurrentUser? && r.payload.status == 200
    ensures r.payload.current == user
  {
    Response(200, CurrentUser(200, user))
  }

  /**
    `PUT /profile/:id`. `caller` is the authenticated user, which the handler
    never reads; `randomNum` is what the random-number helper returns.
   */
  method Update(db: Database, media: MediaStore, caller: Claims, id: Option<int>,
                files: map<string, Upload>, randomNum: nat, svc: Services) returns (r: Response)
    requires db.Valid()
    modifies db`users, media
    ensures db.Valid()
    ensures |files| == 0 ==> r == Response(400, StatusMessage(400, ProfileRequiredMessage))
    // files were sent but none under "profile": reading its mimetype throws
    ensures |files| != 0 && "profile" !in files ==> r == ProfileServerError()
    ensures "profile" in files && CheckImage(svc, Some(files["profile"])).Some? ==>
              r == FieldError("profile", CheckImage(svc, Some(files["profile"])).value)
    // nothing is written before the image has passed the checks
    ensures "profile" !in files || CheckImage(svc, Some(files["profile"])).Some? ==>
              db.users == old(db.users) && media.files == old(media.files) && media.log == old(media.log)
    // an accepted image is stored under the generated name, whatever happens to the row update
    ensures "profile" in files && CheckImage(svc, Some(files["profile"])).None? ==>
              var name := ProfileFileName(randomNum, files["profile"].name);
              media.files == old(media.files) + {name} && media.log == old(media.log) + [Stored(name)]
    // success depends on the path id only: the caller's own id plays no part
    ensures r.code == 200 <==>
              "profile" in files && CheckImage(svc, Some(files["profile"])).None?
              && db.online && db.writable && id.Some? && id.value in old(db.users)
    ensures r.code == 200 ==>
              && db.users == old(db.users)[id.value := old(db.users)[id.value].(profile := Some(ProfileFileName(randomNum, files["profile"].name)))]
              && r == Response(200, StatusMessage(200, "Profile Updated Successfully!"))
    // the row update throws after the file was stored: unreachable store, rejected write, NaN id, or no such row
    ensures "profile" in files && CheckImage(svc, Some(files["profile"])).None?
            && (!db.online || !db.writable || id.None? || id.value !in old(db.users)) ==>
              r == ProfileServerError()
    ensures r.code != 200 ==> db.users == old(db.users)
  {
    if |files| == 0 {
      return Response(400, StatusMessage(400, ProfileRequiredMessage));
    }
    if "profile" !in files {
      return ProfileServerError();
    }
    var profile := files["profile"];
    var message := CheckImage(svc, Some(profile));
    if message.Some? {
      return FieldError("profile", message.value);
    }
    var imageName := ProfileFileName(randomNum, profile.name);
    media.Store(imageName);
    if !db.online || !db.writable || id.None? || id.value !in db.users {
      // the row update throws: unreachable store, rejected write, NaN id, or no such row
      return ProfileServerError();
    }
    db.SetProfile(id.value, imageName);
    r := Response(200, StatusMessage(200, "Profile Updated Successfully!"));
  }
}
