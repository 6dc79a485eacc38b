/**
 * The message as the user interface and the exporter see it
 * (`DisplayMessage`, `DisplayAttachment`): a row with its sender resolved,
 * its text recovered, its reactions and its attachments attached.
 */
module Display {
  import opened Wrappers
  import opened Strings
  import opened Reactions

  /**
   * An attachment ready to show. `previewPath` is the file the preview
   * image is loaded from, when one is loaded; reading and decoding the image
   * is not modelled.
   */
  datatype DisplayAttachment = DisplayAttachment(
    id: int,
    filename: Option<string>,
    transferName: Option<string>,
    mimeType: Option<string>,
    totalBytes: int,
    isImage: bool,
    resolvedPath: Option<string>,
    formattedSize: string,
    previewPath: Option<string>)

  /**
   * A message ready to show. The three dates keep the raw Apple timestamp of
   * the row; converting it to a calendar date is not part of this model.
   */
  datatype DisplayMessage = DisplayMessage(
    id: int,
    guid: string,
    text: Option<string>,
    senderName: string,
    senderID: string,
    isFromMe: bool,
    date: Option<int>,
    dateRead: Option<int>,
    dateDelivered: Option<int>,
    service: string,
    isDelivered: bool,
    isRead: bool,
    isSent: bool,
    isSystemMessage: bool,
    isEdited: bool,
    isRetracted: bool,
    replyToGUID: Option<string>,
    threadOriginatorGUID: Option<string>,
    groupTitle: Option<string>,
    groupActionType: int,
    reactions: seq<Reaction>,
    attachments: seq<DisplayAttachment>)
  {
    /** `hasContent`: there is something to print for this message. */
    predicate HasContent() {
      (text.Some? && text.value != []) || attachments != [] || isSystemMessage || groupTitle.Some?
    }

    /** The message announces a new group name. */
    predicate IsGroupRename() {
      groupTitle.Some? && groupActionType != 0
    }

    /**
     * Every message the log prints as a special line (a rename or a system
     * message) has content; a message without content is an ordinary
     * message that prints an empty text and no attachments.
     */
    lemma SpecialLinesHaveContent()
      ensures IsGroupRename() || isSystemMessage ==> HasContent()
      ensures !HasContent() ==> !IsGroupRename() && !isSystemMessage && text.GetOr("") == [] && attachments == []
    {
    }

    /**
     * `formattedLogLine`, with the formatted date passed in as `timestamp`.
     * A group rename wins over a system message, which wins over the
     * ordinary `sender (id) [service]: text` form; an ordinary line ends with
     * the edited mark and then the unsent mark.
     */
    method FormattedLogLine(timestamp: string) returns (line: string)
      ensures IsGroupRename() ==> line == "[" + timestamp + "] " + "** Group renamed to \"" + groupTitle.value + "\" **"
      ensures !IsGroupRename() && isSystemMessage ==>
                line == "[" + timestamp + "] " + "** " + text.GetOr("System message") + " **"
      ensures !IsGroupRename() && !isSystemMessage ==>
                line == "[" + timestamp + "] " + (if isFromMe then "Me" else senderName)
                        + (if isFromMe then "" else " (" + senderID + ")")
                        + " [" + service + "]: " + text.GetOr("")
                        + (if isEdited then " (edited)" else "") + (if isRetracted then " (unsent)" else "")
    {
      var head := "[" + timestamp + "] ";
      var sender := if isFromMe then "Me" else senderName;
      var senderDetail := if isFromMe then "" else " (" + senderID + ")";
      if groupTitle.Some? && groupActionType != 0 {
        line := head + "** Group renamed to \"" + groupTitle.value + "\" **";
      } else if isSystemMessage {
        line := head + "** " + text.GetOr("System message") + " **";
      } else {
        line := head + sender + senderDetail + " [" + service + "]: " + text.GetOr("");
        if isEdited {
          line := line + " (edited)";
        }
        if isRetracted {
          line := line + " (unsent)";
        }
      }
    }
  }
}
