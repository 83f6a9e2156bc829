/** The decision logic of the six HTTP handlers: which store operation runs,
    and which status code and message or record list comes back. A `Message`
    body is the text a handler returns or passes to `api.abort`; what the
    framework adds to an abort's text is not part of this model. */
module Routes {
  import opened Records
  import opened Text
  import opened Store

  datatype Body = Message(text: string) | VideoList(videos: seq<Video>)

  datatype Response = Response(status: int, body: Body)

  /** GET /videos: every record, in insertion order. */
  method ListVideos(db: VideoStore) returns (resp: Response)
    ensures resp == Response(200, VideoList(db.videos))
  {
    var all := db.GetVideos();
    resp := Response(200, VideoList(all));
  }

  /** POST /videos. The status codes are as the handler returns them: 201
      when the id is already present (nothing changes), 200 when the
      payload is appended. Ids stay unique if they were. */
  method CreateVideo(db: VideoStore, payload: Video) returns (resp: Response)
    modifies db
    ensures HasId(old(db.videos), payload.id) ==>
      resp == Response(201, Message("video has already been create")) &&
      db.videos == old(db.videos) && db.persisted == old(db.persisted)
    ensures !HasId(old(db.videos), payload.id) ==>
      resp == Response(200, Message("Created new video")) &&
      db.videos == old(db.videos) + [payload] && db.Synced()
    ensures UniqueIds(old(db.videos)) ==> UniqueIds(db.videos)
    ensures HasId(db.videos, payload.id)
  {
    var present := db.IdExistIn(payload.id);
    if present {
      resp := Response(201, Message("video has already been create"));
    } else {
      ghost var before := db.videos;
      db.AddVideo(payload);
      if UniqueIds(before) {
        AppendFreshKeepsUnique(before, payload);
      }
      assert db.videos[|before|] == payload;
      resp := Response(200, Message("Created new video"));
    }
  }

  /** The text of the 404 that DELETE and PUT abort with. */
  function NoSuchVideo(id: nat): string
  {
    "video = " + Decimal(id) + " doesn't exist"
  }

  /** DELETE /videos/{id}: 404 and no change when the id is absent; otherwise
      the first record carrying it is deleted and the snapshot written. With
      unique ids, the id is then gone. */
  method DeleteVideo(db: VideoStore, id: nat) returns (resp: Response)
    modifies db
    ensures !HasId(old(db.videos), id) ==>
      resp == Response(404, Message(NoSuchVideo(id))) &&
      db.videos == old(db.videos) && db.persisted == old(db.persisted)
    ensures HasId(old(db.videos), id) ==>
      resp == Response(200, Message("Video = " + Decimal(id) + " is removed")) &&
      db.videos == RemoveFirst(old(db.videos), id) && db.Synced()
    ensures UniqueIds(old(db.videos)) ==> UniqueIds(db.videos) && !HasId(db.videos, id)
  {
    var present := db.IdExistIn(id);
    if !present {
      resp := Response(404, Message(NoSuchVideo(id)));
    } else {
      ghost var before := db.videos;
      var _ := db.DeleteId(id);
      if UniqueIds(before) {
        RemoveFirstErasesId(before, id);
      }
      resp := Response(200, Message("Video = " + Decimal(id) + " is removed"));
    }
  }

  /** PUT /videos/{id}: 404 and no change when the id is absent; otherwise the
      first record carrying it is overwritten with the payload, whose own id
      is not compared with the path's, and the snapshot written. Ids stay
      unique when the payload keeps the path's id. */
  method ReplaceVideo(db: VideoStore, id: nat, data: Video) returns (resp: Response)
    modifies db
    ensures !HasId(old(db.videos), id) ==>
      resp == Response(404, Message(NoSuchVideo(id))) &&
      db.videos == old(db.videos) && db.persisted == old(db.persisted)
    ensures HasId(old(db.videos), id) ==>
      resp == Response(200, Message("Video = " + Decimal(id) + " is updated")) &&
      db.videos == ReplaceFirst(old(db.videos), id, data) && db.Synced()
    ensures UniqueIds(old(db.videos)) && data.id == id ==> UniqueIds(db.videos)
  {
    var present := db.IdExistIn(id);
    if !present {
      resp := Response(404, Message(NoSuchVideo(id)));
      return;
    }
    ghost var before := db.videos;
    var _ := db.UpdateVideoFile(id, data);
    if UniqueIds(before) && data.id == id {
      ReplaceSameIdKeepsUnique(before, id, data);
    }
    resp := Response(200, Message("Video = " + Decimal(id) + " is updated"));
  }

  /** GET /videos/folder/{folder}: the records whose folder equals the path
      segment with its spaces removed; 404, quoting the segment as given,
      exactly when no record is in that folder. */
  method VideosInFolder(db: VideoStore, folder: string) returns (resp: Response)
    ensures var q := InFolder(StripSpaces(folder));
      if forall i :: 0 <= i < |db.videos| ==> !Matches(db.videos[i], q)
      then resp == Response(404, Message("there are no videos inside " + folder + " "))
      else resp == Response(200, VideoList(Select(db.videos, q)))
  {
    var found := db.ByFolder(StripSpaces(folder));
    SelectEmpty(db.videos, InFolder(StripSpaces(folder)));
    if |found| == 0 {
      resp := Response(404, Message("there are no videos inside " + folder + " "));
    } else {
      resp := Response(200, VideoList(found));
    }
  }

  /** GET /videos/tag/{tag}: the path segment loses its spaces and is split at
      commas; the records sharing a tag with it come back, each once; 404,
      quoting the segment as given, exactly when no record shares a tag. */
  method VideosWithTag(db: VideoStore, tag: string) returns (resp: Response)
    ensures var q := AnyTag(Split(StripSpaces(tag), ','));
      if forall i :: 0 <= i < |db.videos| ==> !Matches(db.videos[i], q)
      then resp == Response(404, Message("video with tag(s) " + tag + " doesn't exist"))
      else resp == Response(200, VideoList(Select(db.videos, q)))
  {
    var found := db.ByTags(StripSpaces(tag));
    SelectEmpty(db.videos, AnyTag(Split(StripSpaces(tag), ',')));
    if |found| == 0 {
      resp := Response(404, Message("video with tag(s) " + tag + " doesn't exist"));
    } else {
      resp := Response(200, VideoList(found));
    }
  }

  /** Because the query loses its spaces, a record whose folder contains a
      space is never found by folder, and one whose every tag contains a
      space is never found by tag. */
  lemma SpacedRecordsUnreachable(v: Video, folder: string, tag: string)
    ensures ' ' in v.folder ==> !Matches(v, InFolder(StripSpaces(folder)))
    ensures (forall k :: 0 <= k < |v.tags| ==> ' ' in v.tags[k]) ==>
      !Matches(v, AnyTag(Split(StripSpaces(tag), ',')))
  {
    SplitFieldsAvoid(StripSpaces(tag), ',', ' ');
  }

  /** The path segment "y, z" reaches the store as the tag list ["y", "z"]. */
  lemma TagSegmentParsed()
    ensures Split(StripSpaces("y, z"), ',') == ["y", "z"]
  {
    StripSpacesConcat("y,", " z");
    StripSpacesFixesSpaceFree("y,");
    assert StripSpaces(" z") == "z";
    assert "y," + "z" == "y,z";
    SplitJoin(["y", "z"], ',');
    assert Join(["y", "z"], ',') == "y,z";
  }

  /** A record tagged "x" and "y": the tag query "y, z" finds it once, the
      query "q" finds nothing. */
  lemma TagQueryScenario(v: Video)
    requires v.tags == ["x", "y"]
    ensures Select([v], AnyTag(Split(StripSpaces("y, z"), ','))) == [v]
    ensures Select([v], AnyTag(Split(StripSpaces("q"), ','))) == []
  {
    TagSegmentParsed();
    assert v.tags[1] in ["y", "z"];
    StripSpacesFixesSpaceFree("q");
    SplitJoin(["q"], ',');
    assert Split("q", ',') == ["q"];
    assert !Matches(v, AnyTag(["q"]));
    assert [v][..0] == [];
  }
}
