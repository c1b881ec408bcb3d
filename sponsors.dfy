/**
 * The shadow-term synchronizer of the Sponsors plugin. Every Sponsor post has
 * a "shadow" term in the Sponsors taxonomy; the two are joined only by the
 * term's name being exactly the post's title. Saving a Sponsor creates the
 * term or resyncs its name and slug; deleting the Sponsor deletes the term.
 *
 * `Saved` and `Deleted` give the term table each hook leaves behind; the
 * hook methods are proved to produce exactly that table.
 */
module NewspackSponsors {
  import opened Wrappers
  import opened WordPress

  /** The Sponsor post type. */
  const NewspackSponsorsCpt: string := "newspack_spnsrs_cpt"

  /** What a hook returns: PHP `false` when it bails, nothing otherwise. */
  datatype HookResult = ReturnedFalse | ReturnedNothing

  /** The first guard of both hooks: the post exists and is a Sponsor. */
  predicate IsSponsor(post: Option<Post>) {
    post.Some? && post.value.postType == NewspackSponsorsCpt
  }

  /** The placeholder state a save skips. */
  predicate IsAutoDraft(p: Post) {
    p.postStatus == "auto-draft" || p.postTitle == "Auto Draft"
  }

  /** A save gets past both guards of `update_shadow_term`. */
  predicate SaveProceeds(post: Option<Post>) {
    IsSponsor(post) && !IsAutoDraft(post.value)
  }

  /**
   * `get_shadow_term`: nothing for a missing post or a post whose title PHP
   * calls empty; otherwise a term named exactly as the title (the least id of
   * them), or nothing when the table has none.
   */
  function GetShadowTerm(t: Table, post: Option<Post>): (r: Option<TermId>)
    ensures post.None? || IsEmptyString(post.value.postTitle) ==> r == None
    ensures r.Some? ==> r.value in t.terms && t.terms[r.value].name == post.value.postTitle
    ensures t.Valid() && post.Some? && !IsEmptyString(post.value.postTitle) ==>
      forall id :: id in t.terms && t.terms[id].name == post.value.postTitle ==> r.Some? && r.value <= id
  {
    if post.None? || IsEmptyString(post.value.postTitle) then None
    else t.TermByName(post.value.postTitle)
  }

  /**
   * The term table after `update_shadow_term` for `post`, where
   * `insertAccepted` is the host's verdict on the insert, should one be made.
   */
  function Saved(t: Table, post: Option<Post>, insertAccepted: bool): (r: Table)
    requires t.Valid()
    ensures r.Valid()
    // The guards leave the table as it was.
    ensures !SaveProceeds(post) ==> r == t
    // No term is removed, and every term but the matched one is untouched.
    ensures t.terms.Keys <= r.terms.Keys
    ensures forall id :: id in t.terms && !(SaveProceeds(post) && GetShadowTerm(t, post) == Some(id)) ==>
      r.terms[id] == t.terms[id]
    // A matching term gets the post's title and slug, and nothing is added.
    ensures SaveProceeds(post) && GetShadowTerm(t, post).Some? ==>
      r.terms.Keys == t.terms.Keys && r.nextId == t.nextId &&
      r.terms[GetShadowTerm(t, post).value] == Term(post.value.postTitle, post.value.postName)
    // Without a match, exactly one term is added when the host accepts it, none otherwise.
    ensures SaveProceeds(post) && GetShadowTerm(t, post).None? ==>
      if insertAccepted then
        t.nextId !in t.terms && r.terms.Keys == t.terms.Keys + {t.nextId} && r.nextId == t.nextId + 1 &&
        r.terms[t.nextId] == Term(post.value.postTitle, post.value.postName)
      else r == t
  {
    if !SaveProceeds(post) then t
    else match GetShadowTerm(t, post)
      case None => if insertAccepted then t.Insert(post.value.postTitle, post.value.postName) else t
      case Some(id) => t.Update(id, post.value.postTitle, post.value.postName)
  }

  /** The term table after `delete_shadow_term` for `post`. */
  function Deleted(t: Table, post: Option<Post>): (r: Table)
    requires t.Valid()
    ensures r.Valid() && r.nextId == t.nextId
    // Nothing is added, and a term that stays keeps its name and slug.
    ensures r.terms.Keys <= t.terms.Keys
    ensures forall id :: id in r.terms ==> r.terms[id] == t.terms[id]
    // A missing or non-Sponsor post, or one without a matching term, changes nothing.
    ensures !IsSponsor(post) || GetShadowTerm(t, post).None? ==> r == t
    // Otherwise exactly the matching term goes.
    ensures IsSponsor(post) && GetShadowTerm(t, post).Some? ==>
      t.terms.Keys - r.terms.Keys == {GetShadowTerm(t, post).value} &&
      t.terms[GetShadowTerm(t, post).value].name == post.value.postTitle
  {
    if !IsSponsor(post) then t
    else match GetShadowTerm(t, post)
      case None => t
      case Some(id) => t.Delete(id)
  }

  /**
   * `create_shadow_term`: inserts a term named after the post's title with the
   * post's slug, returning its id, or None when the host reports an error.
   */
  method CreateShadowTerm(store: TermStore, post: Post, insertAccepted: bool) returns (r: Option<TermId>)
    requires store.Valid()
    modifies store
    ensures store.Valid()
    ensures insertAccepted ==>
      r == Some(old(store.table).nextId) && store.table == old(store.table).Insert(post.postTitle, post.postName)
    ensures !insertAccepted ==> r == None && store.table == old(store.table)
  {
    r := store.InsertTerm(post.postTitle, post.postName, insertAccepted);
  }

  /** `update_shadow_term( $post_id )`, run on every save of any post. */
  method UpdateShadowTerm(posts: map<int, Post>, postId: int, store: TermStore, insertAccepted: bool)
    returns (result: HookResult)
    requires store.Valid()
    modifies store
    ensures store.Valid()
    ensures store.table == Saved(old(store.table), GetPost(posts, postId), insertAccepted)
    ensures result == ReturnedFalse <==> !SaveProceeds(GetPost(posts, postId))
  {
    var post := GetPost(posts, postId);
    if post.None? || NewspackSponsorsCpt != post.value.postType {
      return ReturnedFalse;
    }
    if "auto-draft" == post.value.postStatus || "Auto Draft" == post.value.postTitle {
      return ReturnedFalse;
    }
    var shadowTerm := GetShadowTerm(store.table, post);
    if shadowTerm.None? {
      var _ := CreateShadowTerm(store, post.value, insertAccepted);
    } else {
      store.UpdateTerm(shadowTerm.value, post.value.postTitle, post.value.postName);
    }
    result := ReturnedNothing;
  }

  /** `delete_shadow_term( $post_id )`, run before any post is deleted. */
  method DeleteShadowTerm(posts: map<int, Post>, postId: int, store: TermStore) returns (result: HookResult)
    requires store.Valid()
    modifies store
    ensures store.Valid()
    ensures store.table == Deleted(old(store.table), GetPost(posts, postId))
    ensures result == ReturnedFalse <==> store.table == old(store.table)
    ensures result == ReturnedFalse <==>
      !IsSponsor(GetPost(posts, postId)) || GetShadowTerm(old(store.table), GetPost(posts, postId)).None?
  {
    var post := GetPost(posts, postId);
    if post.None? || NewspackSponsorsCpt != post.value.postType {
      return ReturnedFalse;
    }
    var shadowTerm := GetShadowTerm(store.table, post);
    if shadowTerm.None? {
      return ReturnedFalse;
    }
    store.DeleteTerm(shadowTerm.value);
    result := ReturnedNothing;
  }
}
