/** Chat messages as the completion service and the fine-tuning file use them. */
module Chat {
  datatype Role = System | User | Assistant

  datatype Message = Message(role: Role, content: string)
}
