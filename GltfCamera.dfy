/**
 * The glTF camera record of the Unity importer (integrations/Unity/.../GLTF/GLTFCamera.cs), the
 * camera object of section 5.12 of the glTF 2.0 specification with its `orthographic` (5.13) and
 * `perspective` (5.14) parts. The importer declares the record and lets the JSON deserialiser
 * enforce it: a property marked `Required.Always` must be present and not null, and a record
 * missing one is rejected as a whole. Here that check is a total function from the record as
 * read (every property optional) to either a typed camera or the first missing property.
 */
module GltfCamera {
  import opened Wrappers

  /** `camera.orthographic` as read: an absent or null property is `None`. */
  datatype RawOrthographic = RawOrthographic(
    xmag: Option<real>,
    ymag: Option<real>,
    zfar: Option<real>,
    znear: Option<real>)

  /** `camera.perspective` as read. */
  datatype RawPerspective = RawPerspective(
    aspectRatio: Option<real>,
    yfov: Option<real>,
    zfar: Option<real>,
    znear: Option<real>)

  /** `camera` as read; `cameraType` is the JSON `type` string. */
  datatype RawCamera = RawCamera(
    orthographic: Option<RawOrthographic>,
    perspective: Option<RawPerspective>,
    cameraType: Option<string>,
    name: Option<string>)

  /** The two projection kinds glTF names. */
  datatype CameraType = PerspectiveCamera | OrthographicCamera

  /** `Orthographic` once deserialised: all four properties are required. */
  datatype Orthographic = Orthographic(xmag: real, ymag: real, zfar: real, znear: real)

  /** `Perspective` once deserialised: `aspectRatio` and `zfar` are nullable. */
  datatype Perspective = Perspective(aspectRatio: Option<real>, yfov: real, zfar: Option<real>, znear: real)

  /** `GLTFCamera` once deserialised: only `type` is required. */
  datatype Camera = Camera(
    orthographic: Option<Orthographic>,
    perspective: Option<Perspective>,
    cameraType: CameraType,
    name: Option<string>)

  /** Why a record is rejected: the JSON path of a missing required property, or an unknown type. */
  datatype CameraError = MissingField(path: string) | UnknownType(tag: string)

  /** The JSON string that names a camera type. */
  function TypeTag(t: CameraType): string {
    match t
    case PerspectiveCamera => "perspective"
    case OrthographicCamera => "orthographic"
  }

  /** Reading the `type` string: exactly the tags of the two camera types are recognised. */
  function ParseType(tag: string): (r: Option<CameraType>)
    ensures r.Some? ==> TypeTag(r.value) == tag
    ensures r.None? ==> forall t :: TypeTag(t) != tag
  {
    if tag == "perspective" then Some(PerspectiveCamera)
    else if tag == "orthographic" then Some(OrthographicCamera)
    else None
  }

  /** Every camera type's tag reads back as that type. */
  lemma ParseTypeTag(t: CameraType)
    ensures ParseType(TypeTag(t)) == Some(t)
  {
  }

  /** The tags are case-sensitive: "Perspective" is not a camera type. */
  lemma ParseTypeCaseSensitive()
    ensures ParseType("Perspective").None? && ParseType("ORTHOGRAPHIC").None?
  {
  }

  /** Every required property of `camera.orthographic` is present. */
  predicate OrthographicComplete(o: RawOrthographic) {
    o.xmag.Some? && o.ymag.Some? && o.zfar.Some? && o.znear.Some?
  }

  /** Every required property of `camera.perspective` is present. */
  predicate PerspectiveComplete(p: RawPerspective) {
    p.yfov.Some? && p.znear.Some?
  }

  /** The record is well formed: `type` is present and known, and each sub-record given is complete. */
  predicate CameraComplete(c: RawCamera) {
    && (c.orthographic.Some? ==> OrthographicComplete(c.orthographic.value))
    && (c.perspective.Some? ==> PerspectiveComplete(c.perspective.value))
    && c.cameraType.Some? && ParseType(c.cameraType.value).Some?
  }

  /** Writing a typed value back as a record: every property it holds becomes present. */
  function OrthographicToRaw(o: Orthographic): RawOrthographic {
    RawOrthographic(Some(o.xmag), Some(o.ymag), Some(o.zfar), Some(o.znear))
  }

  function PerspectiveToRaw(p: Perspective): RawPerspective {
    RawPerspective(p.aspectRatio, Some(p.yfov), p.zfar, Some(p.znear))
  }

  function CameraToRaw(c: Camera): RawCamera {
    RawCamera(
      match c.orthographic case None => None case Some(o) => Some(OrthographicToRaw(o)),
      match c.perspective case None => None case Some(p) => Some(PerspectiveToRaw(p)),
      Some(TypeTag(c.cameraType)),
      c.name)
  }

  /** The properties of `camera.orthographic` whose absence a rejection can name. */
  predicate OrthographicMissing(o: RawOrthographic, path: string) {
    || (path == "orthographic.xmag" && o.xmag.None?)
    || (path == "orthographic.ymag" && o.ymag.None?)
    || (path == "orthographic.zfar" && o.zfar.None?)
    || (path == "orthographic.znear" && o.znear.None?)
  }

  predicate PerspectiveMissing(p: RawPerspective, path: string) {
    || (path == "perspective.yfov" && p.yfov.None?)
    || (path == "perspective.znear" && p.znear.None?)
  }

  /**
   * Deserialising `camera.orthographic`: the required properties are checked in declaration
   * order; the record is accepted exactly when all are present, and then holds their values.
   */
  function ValidateOrthographic(o: RawOrthographic): (r: Result<Orthographic, CameraError>)
    ensures r.Ok? <==> OrthographicComplete(o)
    ensures r.Ok? ==> OrthographicToRaw(r.value) == o
    ensures r.Err? ==> r.error.MissingField? && OrthographicMissing(o, r.error.path)
  {
    if o.xmag.None? then Err(MissingField("orthographic.xmag"))
    else if o.ymag.None? then Err(MissingField("orthographic.ymag"))
    else if o.zfar.None? then Err(MissingField("orthographic.zfar"))
    else if o.znear.None? then Err(MissingField("orthographic.znear"))
    else Ok(Orthographic(o.xmag.value, o.ymag.value, o.zfar.value, o.znear.value))
  }

  /**
   * Deserialising `camera.perspective`: `yfov` and `znear` are required; `aspectRatio` and
   * `zfar` are carried over as they are, absent ones staying absent.
   */
  function ValidatePerspective(p: RawPerspective): (r: Result<Perspective, CameraError>)
    ensures r.Ok? <==> PerspectiveComplete(p)
    ensures r.Ok? ==> PerspectiveToRaw(r.value) == p
    ensures r.Ok? ==> r.value.aspectRatio == p.aspectRatio && r.value.zfar == p.zfar
    ensures r.Err? ==> r.error.MissingField? && PerspectiveMissing(p, r.error.path)
  {
    if p.yfov.None? then Err(MissingField("perspective.yfov"))
    else if p.znear.None? then Err(MissingField("perspective.znear"))
    else Ok(Perspective(p.aspectRatio, p.yfov.value, p.zfar, p.znear.value))
  }

  /**
   * Deserialising `camera`: a nested record is rejected while it is read, before the enclosing
   * record's own required `type` is checked. A rejection anywhere rejects the whole camera.
   */
  function ValidateCamera(c: RawCamera): (r: Result<Camera, CameraError>)
    ensures r.Ok? <==> CameraComplete(c)
    ensures r.Ok? ==> CameraToRaw(r.value) == c
    ensures r.Ok? ==> c.cameraType == Some(TypeTag(r.value.cameraType))
    ensures r.Err? && r.error.MissingField? ==>
      || (c.orthographic.Some? && OrthographicMissing(c.orthographic.value, r.error.path))
      || (c.perspective.Some? && PerspectiveMissing(c.perspective.value, r.error.path))
      || (r.error.path == "type" && c.cameraType.None?)
    ensures r.Err? && r.error.UnknownType? ==>
      c.cameraType == Some(r.error.tag) && ParseType(r.error.tag).None?
  {
    var ortho: Result<Option<Orthographic>, CameraError> :=
      match c.orthographic
      case None => Ok(None)
      case Some(o) =>
        match ValidateOrthographic(o)
        case Ok(v) => Ok(Some(v))
        case Err(e) => Err(e);
    var persp: Result<Option<Perspective>, CameraError> :=
      match c.perspective
      case None => Ok(None)
      case Some(p) =>
        match ValidatePerspective(p)
        case Ok(v) => Ok(Some(v))
        case Err(e) => Err(e);
    if ortho.Err? then Err(ortho.error)
    else if persp.Err? then Err(persp.error)
    else if c.cameraType.None? then Err(MissingField("type"))
    else match ParseType(c.cameraType.value)
      case None => Err(UnknownType(c.cameraType.value))
      case Some(t) => Ok(Camera(ortho.value, persp.value, t, c.name))
  }

  /** Round trip the other way: writing a camera out and reading it back gives the same camera. */
  lemma ValidateCameraToRaw(cam: Camera)
    ensures ValidateCamera(CameraToRaw(cam)) == Ok(cam)
  {
    ParseTypeTag(cam.cameraType);
  }

  /** `name`, `orthographic` and `perspective` are optional: a record with only a known `type` is a camera. */
  lemma OnlyTypeRequired(tag: string)
    requires ParseType(tag).Some?
    ensures ValidateCamera(RawCamera(None, None, Some(tag), None)) == Ok(Camera(None, None, ParseType(tag).value, None))
  {
  }

  /**
   * Nothing relates `type` to the sub-record that is filled in: a camera typed "perspective"
   * that carries only an orthographic part is accepted as it is.
   */
  lemma TypeNotMatchedToSubRecord(o: RawOrthographic)
    requires OrthographicComplete(o)
    ensures var r := ValidateCamera(RawCamera(Some(o), None, Some("perspective"), None));
      r.Ok? && r.value.cameraType == PerspectiveCamera &&
      r.value.orthographic.Some? && r.value.perspective.None?
  {
  }

  /** A sub-record missing a required property rejects the camera, whatever else it holds. */
  lemma IncompleteSubRecordRejects(c: RawCamera)
    requires (c.orthographic.Some? && !OrthographicComplete(c.orthographic.value)) ||
             (c.perspective.Some? && !PerspectiveComplete(c.perspective.value))
    ensures ValidateCamera(c).Err?
    ensures ValidateCamera(c).error.MissingField?
  {
  }
}
