/**
 * Choosing a profile picture for a new user (`get_random_profile_pic` in
 * backend/app.py). The directory listing is an input and the random choice
 * is a nondeterministic pick among the pictures it holds.
 */
module ProfilePics {
  import opened Wrappers
  import opened Uploads

  /** The names of a directory listing that pass `allowed_file`, in listing order. */
  function Pictures(listing: seq<string>): (pics: seq<string>)
    ensures forall f :: f in pics <==> f in listing && AllowedFile(f)
    ensures |pics| <= |listing|
  {
    if listing == [] then []
    else if AllowedFile(listing[0]) then [listing[0]] + Pictures(listing[1..])
    else Pictures(listing[1..])
  }

  /**
   * What a call may return for `listing`: nothing exactly when no listed name
   * is an accepted picture, otherwise one of the accepted listed names.
   */
  predicate IsPictureChoice(listing: seq<string>, pic: Option<string>)
  {
    (pic.None? <==> forall f :: f in listing ==> !AllowedFile(f)) &&
    (pic.Some? ==> pic.value in listing && AllowedFile(pic.value))
  }

  /** `get_random_profile_pic`: filter the listing, then pick any survivor. */
  method GetRandomProfilePic(listing: seq<string>) returns (pic: Option<string>)
    ensures IsPictureChoice(listing, pic)
  {
    var pics := Pictures(listing);
    if |pics| > 0 {
      var k :| 0 <= k < |pics|;
      pic := Some(pics[k]);
    } else {
      pic := None;
    }
  }
}
