/** Values, rows, messages, configuration and error kinds of the chatbot
    polling component. */
module ChatTypes {

  /** A cell of a query result or a Python value used as a dictionary key.
      `Null` is Python's `None`; floats and booleans are not modelled. */
  datatype Value = Null | Int(i: int) | Str(s: string)

  /** One record of `data_frame.to_dict('records')`: column name to cell. */
  type Row = map<string, Value>

  /** A chat message as seen by the polling strategy: the conversation it
      belongs to, its text and the user who wrote it. */
  datatype ChatMessage = ChatMessage(destination: Value, text: string, user: string)

  /** `params['polling']`: where the per-conversation message counts live. */
  datatype PollingParams = PollingParams(table: string, chatIdCol: string, countCol: string)

  /** `params['chat_table']`: where outgoing messages are written. */
  datatype ChatTable = ChatTable(name: string, chatIdCol: string, textCol: string)

  /** The strategy's read-only configuration. */
  datatype Params = Params(polling: PollingParams, chatTable: ChatTable, botUsername: string)

  /** The exceptions a polling cycle can raise. */
  datatype Error =
    | NoDataFrame               // BotException('Error to get count of messages')
    | KeyError(column: string)  // a result row lacks a selected column
    | HistoryUnavailable(chat: Value)  // get_chat / get_history raised
    | EmptyHistory(chat: Value) // history[-1] on an empty history
    | CallbackFailed(chat: Value)      // on_message raised
}
