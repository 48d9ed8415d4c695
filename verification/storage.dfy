/**
 * The name-to-image store of the editor: a map from non-empty names to
 * images, with two insertion policies (`addImage` refuses an existing name,
 * `putImage` overwrites it), lookup, membership and removal.
 *
 * The store is a value: an operation that fails returns the error and the
 * caller keeps the store it had, which is how "a failed call leaves the store
 * unchanged" reads in this model. A Java `null` name is `None`.
 */
module Storage {
  import opened Results
  import opened Images

  datatype Store = Store(images: map<string, Image>) {
    /** What every reachable store satisfies: no entry under the empty name,
        and every stored image valid. */
    ghost predicate Valid() {
      && "" !in images
      && forall name :: name in images ==> images[name].Valid()
    }
  }

  /** The store the editor starts with. */
  function Empty(): (s: Store)
    ensures s.Valid() && forall name :: !HasImage(s, Some(name))
  {
    Store(map[])
  }

  /** A name the store refuses: null or empty. */
  predicate Blank(name: Option<string>) {
    name.None? || name.value == ""
  }

  /** `hasImage`: whether an image is stored under the name (a null name
      finds nothing). */
  function HasImage(s: Store, name: Option<string>): bool {
    name.Some? && name.value in s.images
  }

  /** `getImage`: the image stored under the name. A null or empty name and
      an absent name are both IllegalArgumentExceptions. */
  function GetImage(s: Store, name: Option<string>): (r: Result<Image>)
    ensures r.Ok? <==> !Blank(name) && HasImage(s, name)
    ensures Blank(name) ==> r == Err(EmptyName)
    ensures !Blank(name) && !HasImage(s, name) ==> r == Err(NoSuchImage)
    ensures r.Ok? ==> r.value == s.images[name.value]
    ensures s.Valid() && r.Ok? ==> r.value.Valid()
  {
    if Blank(name) then Err(EmptyName)
    else if name.value !in s.images then Err(NoSuchImage)
    else Ok(s.images[name.value])
  }

  /** `putImage`: the name checked, then the image checked for null, then
      the entry inserted or overwritten. */
  function PutImage(s: Store, name: Option<string>, image: Option<Image>): (r: Result<Store>)
    ensures r.Ok? <==> !Blank(name) && image.Some?
    ensures Blank(name) ==> r == Err(EmptyName)
    ensures !Blank(name) && image.None? ==> r == Err(NullImage)
    ensures r.Ok? ==> GetImage(r.value, name) == Ok(image.value)
    ensures r.Ok? ==> forall other :: other != name ==> GetImage(r.value, other) == GetImage(s, other)
    ensures r.Ok? ==> forall other :: other != name ==> HasImage(r.value, other) == HasImage(s, other)
    ensures r.Ok? ==> r.value.images.Keys == s.images.Keys + {name.value}
    ensures r.Ok? && s.Valid() && image.value.Valid() ==> r.value.Valid()
  {
    if Blank(name) then Err(EmptyName)
    else if image.None? then Err(NullImage)
    else Ok(Store(s.images[name.value := image.value]))
  }

  /** `addImage`: like `putImage`, except that an existing name is an
      IllegalStateException and keeps its entry. */
  function AddImage(s: Store, name: Option<string>, image: Option<Image>): (r: Result<Store>)
    ensures r.Ok? <==> !Blank(name) && image.Some? && !HasImage(s, name)
    ensures Blank(name) ==> r == Err(EmptyName)
    ensures !Blank(name) && image.None? ==> r == Err(NullImage)
    ensures !Blank(name) && image.Some? && HasImage(s, name) ==> r == Err(DuplicateName)
    ensures r.Err? ==> r == PutImage(s, name, image) || r.error == DuplicateName
    ensures r.Ok? ==> r == PutImage(s, name, image)
  {
    if Blank(name) then Err(EmptyName)
    else if image.None? then Err(NullImage)
    else if name.value in s.images then Err(DuplicateName)
    else Ok(Store(s.images[name.value := image.value]))
  }

  /** `removeImage`: the name checked, then its presence, then the entry
      removed. */
  function RemoveImage(s: Store, name: Option<string>): (r: Result<Store>)
    ensures r.Ok? <==> !Blank(name) && HasImage(s, name)
    ensures Blank(name) ==> r == Err(EmptyName)
    ensures !Blank(name) && !HasImage(s, name) ==> r == Err(NoSuchImage)
    ensures r.Ok? ==> !HasImage(r.value, name)
    ensures r.Ok? ==> forall other :: other != name ==> GetImage(r.value, other) == GetImage(s, other)
    ensures r.Ok? ==> r.value.images.Keys == s.images.Keys - {name.value}
    ensures r.Ok? && s.Valid() ==> r.value.Valid()
  {
    if Blank(name) then Err(EmptyName)
    else if name.value !in s.images then Err(NoSuchImage)
    else Ok(Store(s.images - {name.value}))
  }

  /** On a valid store, `hasImage` and a successful `getImage` agree:
      nothing is ever stored under the empty name. */
  lemma HasIffGet(s: Store, name: Option<string>)
    requires s.Valid()
    ensures HasImage(s, name) <==> GetImage(s, name).Ok?
  {
  }

  /** Putting twice under one name keeps only the second image. */
  lemma PutTwice(s: Store, name: string, first: Image, second: Image)
    requires name != ""
    ensures PutImage(s, Some(name), Some(first)).Ok?
    ensures PutImage(PutImage(s, Some(name), Some(first)).value, Some(name), Some(second))
              == PutImage(s, Some(name), Some(second))
  {
    var once := PutImage(s, Some(name), Some(first)).value;
    assert once.images[name := second] == s.images[name := second];
  }

  /** Putting an image under a name and removing that name again restores
      a store that did not have the name. */
  lemma PutThenRemove(s: Store, name: string, image: Image)
    requires name != "" && !HasImage(s, Some(name))
    ensures PutImage(s, Some(name), Some(image)).Ok?
    ensures RemoveImage(PutImage(s, Some(name), Some(image)).value, Some(name)) == Ok(s)
  {
    var put := PutImage(s, Some(name), Some(image)).value;
    assert put.images - {name} == s.images;
  }

  /** Re-putting what is already stored changes nothing. */
  lemma PutStored(s: Store, name: string)
    requires GetImage(s, Some(name)).Ok?
    ensures PutImage(s, Some(name), Some(GetImage(s, Some(name)).value)) == Ok(s)
  {
    assert s.images[name := s.images[name]] == s.images;
  }
}
