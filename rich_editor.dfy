/** The rich-text editor's own state: the image upload (the file checks and
    the uploading flag) and the link input (its URL and whether it is
    shown). The editor document itself is not modelled; what the component
    asks it to do is recorded as a list of commands. */
module RichEditor {
  import opened Wrappers
  import opened Text

  const ImageMimePrefix: string := "image/"
  const MaxImageBytes: int := 5 * 1024 * 1024
  const DefaultAlt: string := "Uploaded image"
  const NotAnImageAlert: string := "Please select an image file"
  const TooLargeAlert: string := "Image size must be less than 5MB"
  const UploadFailedAlert: string := "Failed to upload image. Please try again."

  /** A chosen file: its MIME type, its size in bytes and its name. */
  datatype File = File(mimeType: string, size: int, name: string)

  /** What the checks before an upload decide. */
  datatype FileCheck = NoFile | NotAnImage | TooLarge | Accepted

  /** The checks of `addImage`, in order: a file must be chosen, its type
      must start with `image/`, and it must be at most 5 MiB. */
  function CheckFile(file: Option<File>): (c: FileCheck)
    ensures c == NoFile <==> file.None?
    ensures c == Accepted <==>
      file.Some? && StartsWith(file.value.mimeType, ImageMimePrefix) && file.value.size <= MaxImageBytes
    ensures c == NotAnImage ==> file.Some? && !StartsWith(file.value.mimeType, ImageMimePrefix)
    ensures c == TooLarge ==> file.Some? && file.value.size > MaxImageBytes
  {
    match file
    case None => NoFile
    case Some(f) =>
      if !StartsWith(f.mimeType, ImageMimePrefix) then NotAnImage
      else if f.size > MaxImageBytes then TooLarge
      else Accepted
  }

  /** The alert a refused file raises; an absent file raises none. */
  function CheckAlert(c: FileCheck): (alert: Option<string>)
    ensures alert.Some? <==> c in {NotAnImage, TooLarge}
  {
    match c
    case NotAnImage => Some(NotAnImageAlert)
    case TooLarge => Some(TooLargeAlert)
    case _ => None
  }

  /** The size limit is inclusive: an image of exactly 5 MiB is accepted,
      one byte more is refused. */
  lemma SizeLimitIsInclusive(name: string)
    ensures CheckFile(Some(File("image/png", MaxImageBytes, name))) == Accepted
    ensures CheckFile(Some(File("image/png", MaxImageBytes + 1, name))) == TooLarge
  {
    assert StartsWith("image/png", ImageMimePrefix) by {
      assert "image/png"[..|ImageMimePrefix|] == ImageMimePrefix;
    }
  }

  /** A command the component gives the editor document. */
  datatype Command = SetImage(src: string, alt: string) | SetLink(href: string) | UnsetLink

  /** Every command the component gives carries what it needs: an image has
      a source and an alternative text, a link a target. */
  predicate WellFormed(cmd: Command)
  {
    match cmd
    case SetImage(src, alt) => alt != []
    case SetLink(href) => href != []
    case UnsetLink => true
  }

  /** The alternative text of an uploaded image: the file's name, or a fixed
      text when the name is empty. */
  function AltText(name: string): (alt: string)
    ensures alt != []
    ensures name != [] ==> alt == name
    ensures name == [] ==> alt == DefaultAlt
  {
    if name != [] then name else DefaultAlt
  }

  class Editor {
    var isUploading: bool
    var linkUrl: string
    var showLinkInput: bool
    /** The value of the hidden file input. */
    var fileInput: string
    /** What the component asked the document to do, oldest first. */
    var commands: seq<Command>

    ghost predicate Valid()
      reads this
    {
      forall k :: 0 <= k < |commands| ==> WellFormed(commands[k])
    }

    constructor ()
      ensures !isUploading && linkUrl == [] && !showLinkInput && fileInput == [] && commands == []
      ensures Valid()
    {
      isUploading := false;
      linkUrl := [];
      showLinkInput := false;
      fileInput := [];
      commands := [];
    }

    /** Whether the image button is disabled. */
    function ImageButtonDisabled(): (disabled: bool)
      reads this
      ensures disabled <==> isUploading
    {
      isUploading
    }

    /** The start of `addImage`: a refused file (or none) changes nothing
        and may raise an alert; an accepted one starts the upload. */
    method BeginAddImage(file: Option<File>) returns (check: FileCheck, alert: Option<string>)
      modifies this
      ensures check == CheckFile(file) && alert == CheckAlert(check)
      ensures check == Accepted ==> isUploading
      ensures check != Accepted ==> isUploading == old(isUploading)
      ensures linkUrl == old(linkUrl) && showLinkInput == old(showLinkInput)
      ensures fileInput == old(fileInput) && commands == old(commands)
    {
      check := CheckFile(file);
      alert := CheckAlert(check);
      if check == Accepted {
        isUploading := true;
      }
    }

    /** The end of `addImage`, once the upload of `file` returned the URL
        of the stored image or failed: the image is inserted with its
        alternative text, or an alert is raised; either way the upload is
        over and the file input is cleared. */
    method FinishAddImage(file: File, uploaded: Option<string>) returns (alert: Option<string>)
      requires Valid()
      modifies this
      ensures Valid()
      ensures !isUploading && fileInput == []
      ensures uploaded.Some? ==>
        commands == old(commands) + [SetImage(uploaded.value, AltText(file.name))] && alert.None?
      ensures uploaded.None? ==> commands == old(commands) && alert == Some(UploadFailedAlert)
      ensures linkUrl == old(linkUrl) && showLinkInput == old(showLinkInput)
    {
      alert := None;
      if uploaded.Some? {
        commands := commands + [SetImage(uploaded.value, AltText(file.name))];
      } else {
        alert := Some(UploadFailedAlert);
      }
      isUploading := false;
      fileInput := [];
    }

    /** `setLink`: with a URL typed, the link is set and the input is closed
        and emptied; with none, nothing happens. */
    method ApplyLink()
      requires Valid()
      modifies this
      ensures Valid()
      ensures old(linkUrl) == [] ==> unchanged(this)
      ensures old(linkUrl) != [] ==>
        && commands == old(commands) + [SetLink(old(linkUrl))]
        && linkUrl == [] && !showLinkInput
      ensures isUploading == old(isUploading) && fileInput == old(fileInput)
    {
      if linkUrl != [] {
        commands := commands + [SetLink(linkUrl)];
        linkUrl := [];
        showLinkInput := false;
      }
    }

    /** `removeLink`. */
    method RemoveLink()
      requires Valid()
      modifies this
      ensures Valid()
      ensures commands == old(commands) + [UnsetLink]
      ensures isUploading == old(isUploading) && linkUrl == old(linkUrl)
      ensures showLinkInput == old(showLinkInput) && fileInput == old(fileInput)
    {
      commands := commands + [UnsetLink];
    }

    /** The link button opens the input, keeping whatever URL it held. */
    method OpenLinkInput()
      modifies this
      ensures showLinkInput
      ensures isUploading == old(isUploading) && linkUrl == old(linkUrl)
      ensures fileInput == old(fileInput) && commands == old(commands)
    {
      showLinkInput := true;
    }

    /** Typing in the link input replaces the URL. */
    method TypeUrl(url: string)
      modifies this
      ensures linkUrl == url
      ensures isUploading == old(isUploading) && showLinkInput == old(showLinkInput)
      ensures fileInput == old(fileInput) && commands == old(commands)
    {
      linkUrl := url;
    }

    /** A key pressed in the link input: Enter applies the link, Escape
        closes the input and empties the URL, any other key does nothing. */
    method KeyDown(key: string)
      requires Valid()
      modifies this
      ensures Valid()
      ensures key == "Enter" && old(linkUrl) != [] ==>
        commands == old(commands) + [SetLink(old(linkUrl))] && linkUrl == [] && !showLinkInput
      ensures key == "Escape" ==> !showLinkInput && linkUrl == [] && commands == old(commands)
      ensures key != "Escape" && (key != "Enter" || old(linkUrl) == []) ==> unchanged(this)
      ensures isUploading == old(isUploading) && fileInput == old(fileInput)
    {
      if key == "Enter" {
        ApplyLink();
      }
      if key == "Escape" {
        showLinkInput := false;
        linkUrl := [];
      }
    }

    /** Cancel closes the input but keeps the URL typed so far. */
    method Cancel()
      modifies this
      ensures !showLinkInput && linkUrl == old(linkUrl)
      ensures isUploading == old(isUploading) && fileInput == old(fileInput) && commands == old(commands)
    {
      showLinkInput := false;
    }
  }
}
