/**
 `QCefContextMenuParams`: a read-only snapshot of the node or selection a
 context menu was invoked on. The snapshot is filled once by the engine
 integration and then only read; a datatype value is exactly that.
 */
module ContextMenuParams {
  import ContextFlags
  import MediaFlags
  import EditFlags
  import MediaType

  datatype Params = Params(
    xCoord: int,
    yCoord: int,
    typeFlags: set<ContextFlags.ContextFlag>,
    linkUrl: string,
    unfilteredLinkUrl: string,
    sourceUrl: string,
    hasImageContents: bool,
    titleText: string,
    pageUrl: string,
    frameUrl: string,
    frameCharset: string,
    mediaType: MediaType.MediaType,
    mediaStateFlags: set<MediaFlags.MediaFlag>,
    selectionText: string,
    isEditable: bool,
    editStateFlags: set<EditFlags.EditFlag>
  )

  /** `getTypeFlags()`: the node types as a mask of QCM_FLAG_* bits. Testing
      the mask's flags gives back exactly the node types of the snapshot. */
  function GetTypeFlags(p: Params): (m: nat)
    ensures m < 64
    ensures ContextFlags.FromMask(m) == p.typeFlags
    ensures forall f :: ContextFlags.Has(m, f) <==> f in p.typeFlags
  {
    ContextFlags.MaskBound(p.typeFlags);
    ContextFlags.FromMaskMask(p.typeFlags);
    forall f
      ensures ContextFlags.Has(ContextFlags.Mask(p.typeFlags), f) <==> f in p.typeFlags
    {
      ContextFlags.HasMask(p.typeFlags, f);
    }
    ContextFlags.Mask(p.typeFlags)
  }

  /** `getMediaType()`: the media type as its QCM_MEDIATYPE_* value, one of
      0..5, naming exactly the snapshot's media type. */
  function GetMediaType(p: Params): (n: int)
    ensures 0 <= n <= 5
    ensures MediaType.FromInt(n).Some? && MediaType.FromInt(n).value == p.mediaType
  {
    MediaType.FromIntToInt(p.mediaType);
    MediaType.ToInt(p.mediaType)
  }

  /** `getMediaStateFlags()`: the media state as a mask of QCM_MEDIAFLAG_*
      bits that decodes to exactly the snapshot's media state. */
  function GetMediaStateFlags(p: Params): (m: nat)
    ensures m < 1024
    ensures MediaFlags.FromMask(m) == p.mediaStateFlags
  {
    MediaFlags.MaskBound(p.mediaStateFlags);
    MediaFlags.FromMaskMask(p.mediaStateFlags);
    MediaFlags.Mask(p.mediaStateFlags)
  }

  /** `getEditStateFlags()`: the edit state as a mask of QCM_EDITFLAG_* bits
      that decodes to exactly the snapshot's edit state. */
  function GetEditStateFlags(p: Params): (m: nat)
    ensures m < 256
    ensures EditFlags.FromMask(m) == p.editStateFlags
  {
    EditFlags.MaskBound(p.editStateFlags);
    EditFlags.FromMaskMask(p.editStateFlags);
    EditFlags.Mask(p.editStateFlags)
  }
}
